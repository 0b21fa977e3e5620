/** The flag scanner of the message wrapper: which argument words are flags
    (`-x`, `-abc12`), what key and value each flag contributes, and the
    single left-to-right pass that fills the flag map and collects the
    remaining words. */
module Flags {
  import opened Wrappers
  import opened Text

  predicate IsLower(c: char) { 'a' <= c <= 'z' }

  predicate IsDigit(c: char) { '0' <= c <= '9' }

  predicate AllLower(s: string) {
    forall i :: 0 <= i < |s| ==> IsLower(s[i])
  }

  predicate AllDigits(s: string) {
    forall i :: 0 <= i < |s| ==> IsDigit(s[i])
  }

  /** Characters that a Python regular expression gives a special meaning
      outside a character class; a prefix that is one of them would change
      the pattern, and such prefixes are outside this model. */
  predicate IsRegexMeta(c: char) {
    c in ".^$*+?{}[]\\|()"
  }

  /** Length of the leading run of `[a-z]` characters. */
  function LowerRun(s: string): (n: nat)
    ensures n <= |s|
    ensures AllLower(s[..n])
    ensures n == |s| || !IsLower(s[n])
    decreases |s|
  {
    if |s| > 0 && IsLower(s[0]) then
      var k := LowerRun(s[1..]);
      assert s[..1 + k] == [s[0]] + s[1..][..k];
      1 + k
    else 0
  }

  /** The pattern `({p}[a-z]+)($|[0-9]+)?$` matches the whole of `t`: the
      prefix character, then a non-empty run of letters, then nothing but
      digits. */
  predicate IsFlag(p: char, t: string)
    ensures IsFlag(p, t) ==> |t| >= 2 && t[0] == p && forall i :: 1 <= i < |t| ==> !IsSpace(t[i])
  {
    && |t| >= 2
    && t[0] == p
    && LowerRun(t[1..]) > 0
    && AllDigits(t[1 + LowerRun(t[1..])..])
  }

  /** Where the first group of the pattern ends. */
  function NameLen(t: string): (n: nat)
    requires |t| >= 1
    ensures n <= |t|
  {
    1 + LowerRun(t[1..])
  }

  /** The first group: the prefix and its letters. */
  function Name(t: string): (n: string)
    requires |t| >= 1
    ensures |n| == NameLen(t) && n == t[..|n|]
    ensures n[0] == t[0] && AllLower(n[1..])
  {
    assert t[..NameLen(t)][1..] == t[1..][..LowerRun(t[1..])];
    t[..NameLen(t)]
  }

  /** The second group, or `''` when the flag carries no digits. */
  function Digits(t: string): (d: string)
    requires |t| >= 1
    ensures Name(t) + d == t
    ensures d == [] || !IsLower(d[0])
  {
    t[NameLen(t)..]
  }

  /** `t` decomposes as the prefix, a non-empty run of lower-case letters
      and a (possibly empty) run of digits: the language of the pattern. */
  predicate Matches(p: char, t: string, letters: string, digits: string) {
    && |letters| > 0
    && AllLower(letters)
    && AllDigits(digits)
    && t == [p] + letters + digits
  }

  /** A token the scanner takes for a flag is in the pattern's language,
      split exactly into the two groups. */
  lemma FlagMatches(p: char, t: string)
    requires IsFlag(p, t)
    ensures Matches(p, t, Name(t)[1..], Digits(t))
  {
    assert Name(t)[1..] == t[1..][..LowerRun(t[1..])];
    assert t == [p] + Name(t)[1..] + Digits(t);
  }

  /** Every word of the pattern's language is taken for a flag, and the
      groups are the letters and the digits: since no digit is a letter
      the split is unique. */
  lemma MatchesFlag(p: char, t: string, letters: string, digits: string)
    requires Matches(p, t, letters, digits)
    ensures IsFlag(p, t)
    ensures Name(t) == [p] + letters
    ensures Digits(t) == digits
  {
    assert t[1..] == letters + digits;
    LowerRunAppend(letters, digits);
  }

  lemma {:induction false} LowerRunAppend(letters: string, digits: string)
    requires AllLower(letters) && AllDigits(digits)
    ensures LowerRun(letters + digits) == |letters|
    decreases |letters|
  {
    if |letters| == 0 {
      assert letters + digits == digits;
    } else {
      assert (letters + digits)[1..] == letters[1..] + digits;
      LowerRunAppend(letters[1..], digits);
    }
  }

  /** `s.lstrip(c)` with a one-character argument: every leading `c` goes,
      not just one. */
  function LStripChar(s: string, c: char): (r: string)
    ensures |r| <= |s| && r == s[|s| - |r|..]
    ensures forall i :: 0 <= i < |s| - |r| ==> s[i] == c
    ensures r == [] || r[0] != c
    decreases |s|
  {
    if |s| > 0 && s[0] == c then LStripChar(s[1..], c) else s
  }

  /** The key a flag token is stored under: the first group, with the
      prefix characters stripped off when `del_pre` is set. */
  function Key(p: char, delPre: bool, t: string): (k: string)
    requires |t| >= 1
    ensures !delPre ==> k == Name(t)
    ensures delPre ==> |k| <= NameLen(t) && k == Name(t)[NameLen(t) - |k|..]
    ensures delPre ==> (forall i :: 0 <= i < NameLen(t) - |k| ==> t[i] == p) && (k == [] || k[0] != p)
  {
    if delPre then LStripChar(Name(t), p) else Name(t)
  }

  /** With a prefix that is not itself a lower-case letter, `del_pre`
      removes exactly the prefix and keeps every letter of the flag name. */
  lemma KeyOfFlag(p: char, t: string)
    requires IsFlag(p, t) && !IsLower(p)
    ensures Key(p, false, t) == [p] + Name(t)[1..]
    ensures Key(p, true, t) == Name(t)[1..]
    ensures |Key(p, true, t)| > 0 && AllLower(Key(p, true, t))
  {
    var n := Name(t);
    assert n[1..] == t[1..][..LowerRun(t[1..])];
    assert n[1..][0] == t[1];
    assert LStripChar(n[1..], p) == n[1..];
  }

  /** With a lower-case prefix, `del_pre` strips more than the prefix:
      every letter at the start of the name that repeats the prefix goes
      too (under prefix `a`, flag `aab` is stored under `b`), and a name
      made only of the prefix letter gets the empty key. */
  lemma LowerPrefixStripsLetters(p: char, t: string)
    requires IsFlag(p, t) && IsLower(p)
    ensures Key(p, true, t) == LStripChar(Name(t)[1..], p)
    ensures Key(p, true, t) == [] <==> forall i :: 1 <= i < NameLen(t) ==> t[i] == p
  {
    var x := Name(t)[1..];
    assert Name(t)[1..] == x;
    var r := LStripChar(x, p);
    if r == [] {
      forall i | 1 <= i < NameLen(t) ensures t[i] == p {
        assert t[i] == x[i - 1];
      }
    } else {
      var j := |x| - |r|;
      assert x[j] == r[0];
      assert t[j + 1] == x[j];
    }
  }

  /** The state the scanning loop threads through the words: the flag map
      and the accumulated string of the other words. */
  datatype Parsed = Parsed(flags: map<string, string>, acc: string)

  /** One iteration of the loop: a flag stores its digits under its key
      (replacing any earlier value), any other word is appended after a
      space. */
  function Step(p: char, delPre: bool, st: Parsed, t: string): (r: Parsed)
    requires |t| >= 1
    ensures IsFlag(p, t) ==> r.acc == st.acc && Lookup(r.flags, Key(p, delPre, t)) == Some(Digits(t))
    ensures IsFlag(p, t) ==> forall k :: k != Key(p, delPre, t) ==> Lookup(r.flags, k) == Lookup(st.flags, k)
    ensures !IsFlag(p, t) ==> r.flags == st.flags && r.acc == st.acc + " " + t
  {
    if IsFlag(p, t) then st.(flags := st.flags[Key(p, delPre, t) := Digits(t)])
    else st.(acc := st.acc + " " + t)
  }

  /** The loop over the argument words, first to last. */
  function Scan(p: char, delPre: bool, ts: seq<string>, st: Parsed): (r: Parsed)
    requires AllTokens(ts)
    ensures st.flags.Keys <= r.flags.Keys
    ensures |st.acc| <= |r.acc|
    decreases |ts|
  {
    if |ts| == 0 then st
    else Scan(p, delPre, ts[1..], Step(p, delPre, st, ts[0]))
  }

  /** The words that are not flags, in their original order. */
  function NonFlags(p: char, ts: seq<string>): (r: seq<string>)
    ensures |r| <= |ts|
    ensures forall t :: t in r <==> t in ts && !IsFlag(p, t)
    ensures AllTokens(ts) ==> AllTokens(r)
    decreases |ts|
  {
    if |ts| == 0 then []
    else if IsFlag(p, ts[0]) then NonFlags(p, ts[1..])
    else [ts[0]] + NonFlags(p, ts[1..])
  }

  /** The words that are flags, in their original order. */
  function FlagWords(p: char, ts: seq<string>): (r: seq<string>)
    ensures |r| <= |ts|
    ensures forall t :: t in r <==> t in ts && IsFlag(p, t)
    decreases |ts|
  {
    if |ts| == 0 then []
    else if IsFlag(p, ts[0]) then [ts[0]] + FlagWords(p, ts[1..])
    else FlagWords(p, ts[1..])
  }

  /** `t` is a flag stored under key `k`. */
  predicate Carries(p: char, delPre: bool, t: string, k: string) {
    |t| >= 1 && IsFlag(p, t) && Key(p, delPre, t) == k
  }

  /** The value of the LAST flag word with key `k`, searching backwards
      from the end. */
  function LastValue(p: char, delPre: bool, ts: seq<string>, k: string): Option<string>
    requires AllTokens(ts)
    decreases |ts|
  {
    if |ts| == 0 then None
    else
      var t := ts[|ts| - 1];
      if Carries(p, delPre, t, k) then Some(Digits(t))
      else LastValue(p, delPre, ts[..|ts| - 1], k)
  }

  /** `" " + w` for every word, in order: what the loop appends. */
  function Spaced(ws: seq<string>): string
    decreases |ws|
  {
    if |ws| == 0 then "" else " " + ws[0] + Spaced(ws[1..])
  }

  function Lookup(m: map<string, string>, k: string): Option<string> {
    if k in m then Some(m[k]) else None
  }

  /** Every word goes to exactly one side, flags or the rest, and none is
      lost or duplicated. */
  lemma {:induction false} Partition(p: char, ts: seq<string>)
    ensures multiset(FlagWords(p, ts)) + multiset(NonFlags(p, ts)) == multiset(ts)
    decreases |ts|
  {
    if |ts| > 0 {
      var t, rest := ts[0], ts[1..];
      Partition(p, rest);
      assert ts == [t] + rest;
      if IsFlag(p, t) {
        assert FlagWords(p, ts) == [t] + FlagWords(p, rest);
        assert NonFlags(p, ts) == NonFlags(p, rest);
      } else {
        assert FlagWords(p, ts) == FlagWords(p, rest);
        assert NonFlags(p, ts) == [t] + NonFlags(p, rest);
      }
    }
  }

  /** Running the loop over one more word is one more step. */
  lemma {:induction false} ScanSnoc(p: char, delPre: bool, ts: seq<string>, t: string, st: Parsed)
    requires AllTokens(ts) && IsToken(t)
    ensures AllTokens(ts + [t])
    ensures Scan(p, delPre, ts + [t], st) == Step(p, delPre, Scan(p, delPre, ts, st), t)
    decreases |ts|
  {
    if |ts| > 0 {
      assert (ts + [t])[1..] == ts[1..] + [t];
      ScanSnoc(p, delPre, ts[1..], t, Step(p, delPre, st, ts[0]));
    }
  }

  /** After the loop, the entry for key `k` is the value of the last flag
      word with that key, and whatever was there before when no word has
      that key: a later duplicate overwrites an earlier one. */
  lemma {:induction false} ScanFlags(p: char, delPre: bool, ts: seq<string>, st: Parsed, k: string)
    requires AllTokens(ts)
    ensures Lookup(Scan(p, delPre, ts, st).flags, k) ==
            match LastValue(p, delPre, ts, k)
            case Some(v) => Some(v)
            case None => Lookup(st.flags, k)
    decreases |ts|
  {
    if |ts| > 0 {
      var front := ts[..|ts| - 1];
      var t := ts[|ts| - 1];
      assert ts == front + [t];
      ScanSnoc(p, delPre, front, t, st);
      ScanFlags(p, delPre, front, st, k);
    }
  }

  /** After the loop, the accumulated string is the old one followed by
      `" " + w` for every non-flag word, in order. */
  lemma {:induction false} ScanAcc(p: char, delPre: bool, ts: seq<string>, st: Parsed)
    requires AllTokens(ts)
    ensures Scan(p, delPre, ts, st).acc == st.acc + Spaced(NonFlags(p, ts))
    decreases |ts|
  {
    if |ts| > 0 {
      var t, rest := ts[0], ts[1..];
      var st' := Step(p, delPre, st, t);
      ScanAcc(p, delPre, rest, st');
      if !IsFlag(p, t) {
        assert st'.acc + Spaced(NonFlags(p, rest)) == st.acc + (" " + t + Spaced(NonFlags(p, rest)));
      }
    }
  }

  /** The first word adds `" " + w` to the appended string when it is not
      a flag, and nothing when it is. */
  lemma SpacedNonFlags(p: char, ts: seq<string>)
    requires |ts| > 0
    ensures Spaced(NonFlags(p, ts)) ==
            (if IsFlag(p, ts[0]) then "" else " " + ts[0]) + Spaced(NonFlags(p, ts[1..]))
  {
    if IsFlag(p, ts[0]) {
      assert NonFlags(p, ts) == NonFlags(p, ts[1..]);
    } else {
      assert NonFlags(p, ts) == [ts[0]] + NonFlags(p, ts[1..]);
    }
  }

  /** Some flag word carries key `k` exactly when the backward search finds
      one. */
  lemma {:induction false} LastValueFound(p: char, delPre: bool, ts: seq<string>, k: string)
    requires AllTokens(ts)
    ensures LastValue(p, delPre, ts, k).Some? <==>
            exists i :: 0 <= i < |ts| && Carries(p, delPre, ts[i], k)
    decreases |ts|
  {
    if |ts| > 0 {
      var front := ts[..|ts| - 1];
      LastValueFound(p, delPre, front, k);
      assert forall i :: 0 <= i < |front| ==> front[i] == ts[i];
      if Carries(p, delPre, ts[|ts| - 1], k) {
        assert LastValue(p, delPre, ts, k).Some?;
      } else {
        assert LastValue(p, delPre, ts, k) == LastValue(p, delPre, front, k);
        if exists i :: 0 <= i < |ts| && Carries(p, delPre, ts[i], k) {
          var i :| 0 <= i < |ts| && Carries(p, delPre, ts[i], k);
          assert i < |front| && Carries(p, delPre, front[i], k);
        }
      }
    }
  }

  /** A key gets a value exactly when one of the flag words carries it. */
  lemma FlagWordsKeys(p: char, delPre: bool, ts: seq<string>, k: string)
    requires AllTokens(ts)
    ensures LastValue(p, delPre, ts, k).Some? <==>
            exists t :: t in FlagWords(p, ts) && Carries(p, delPre, t, k)
  {
    LastValueFound(p, delPre, ts, k);
    if t :| t in FlagWords(p, ts) && Carries(p, delPre, t, k) {
      var i :| 0 <= i < |ts| && ts[i] == t;
      assert Carries(p, delPre, ts[i], k);
    }
    if i :| 0 <= i < |ts| && Carries(p, delPre, ts[i], k) {
      assert ts[i] in FlagWords(p, ts);
    }
  }

  /** The value found is that of the flag word at the last index carrying
      key `k`. */
  lemma {:induction false} LastValueAt(p: char, delPre: bool, ts: seq<string>, k: string, i: nat)
    requires AllTokens(ts)
    requires i < |ts| && Carries(p, delPre, ts[i], k)
    requires forall j :: i < j < |ts| ==> !Carries(p, delPre, ts[j], k)
    ensures LastValue(p, delPre, ts, k) == Some(Digits(ts[i]))
    decreases |ts|
  {
    if i < |ts| - 1 {
      var front := ts[..|ts| - 1];
      assert front[i] == ts[i];
      LastValueAt(p, delPre, front, k, i);
    }
  }

  /** The appended string is a single space followed by the words joined
      by single spaces. */
  lemma {:induction false} SpacedJoin(ws: seq<string>)
    ensures Spaced(ws) == if |ws| == 0 then "" else " " + Join(ws)
    decreases |ws|
  {
    if |ws| > 1 {
      SpacedJoin(ws[1..]);
    }
  }

  /** Stripping the appended string leaves the non-flag words joined by
      single spaces, without leading or trailing whitespace. */
  lemma StripSpaced(ws: seq<string>)
    requires AllTokens(ws)
    ensures Strip(Spaced(ws)) == Join(ws)
  {
    SpacedJoin(ws);
    if |ws| > 0 {
      assert AllSpace(" ");
      LStripSpacePrefix(" ", Join(ws));
      JoinEnds(ws);
      StripJoin(ws);
    }
  }
}
