/** Python's whitespace handling on `str`: `isspace`, `strip()`, `split()`,
    `split(maxsplit=1)` and `' '.join(...)`, over strings as sequences of
    code points. */
module Text {

  /** Python's `str.isspace` for one code point: the characters that
      argument-less `split()` and `strip()` treat as whitespace. */
  predicate IsSpace(c: char)
    ensures c == ' ' || '\t' <= c <= '\r' ==> IsSpace(c)
    ensures '0' <= c <= '9' || 'a' <= c <= 'z' || 'A' <= c <= 'Z' ==> !IsSpace(c)
    ensures IsSpace(c) && c as int < 0x80 ==> c as int <= 0x20
  {
    var n := c as int;
    || (0x09 <= n <= 0x0D)
    || (0x1C <= n <= 0x20)
    || n == 0x85 || n == 0xA0 || n == 0x1680
    || (0x2000 <= n <= 0x200A)
    || n == 0x2028 || n == 0x2029 || n == 0x202F || n == 0x205F || n == 0x3000
  }

  predicate AllSpace(s: string) {
    forall i :: 0 <= i < |s| ==> IsSpace(s[i])
  }

  predicate NoSpace(s: string) {
    forall i :: 0 <= i < |s| ==> !IsSpace(s[i])
  }

  /** A word as `split()` produces it: non-empty, without whitespace. */
  predicate IsToken(w: string) {
    |w| > 0 && NoSpace(w)
  }

  predicate AllTokens(ws: seq<string>) {
    forall i :: 0 <= i < |ws| ==> IsToken(ws[i])
  }

  /** `s.lstrip()`: the longest suffix of `s` that does not start with
      whitespace; everything dropped is whitespace. */
  function LStrip(s: string): (r: string)
    ensures |r| <= |s| && r == s[|s| - |r|..]
    ensures AllSpace(s[..|s| - |r|])
    ensures r == [] || !IsSpace(r[0])
    decreases |s|
  {
    if |s| > 0 && IsSpace(s[0]) then LStrip(s[1..]) else s
  }

  /** `s.rstrip()`: the longest prefix of `s` that does not end with
      whitespace; everything dropped is whitespace. */
  function RStrip(s: string): (r: string)
    ensures |r| <= |s| && r == s[..|r|]
    ensures AllSpace(s[|r|..])
    ensures r == [] || !IsSpace(r[|r| - 1])
    decreases |s|
  {
    if |s| > 0 && IsSpace(s[|s| - 1]) then RStrip(s[..|s| - 1]) else s
  }

  /** No whitespace at either end. */
  predicate Stripped(s: string) {
    s == [] || (!IsSpace(s[0]) && !IsSpace(s[|s| - 1]))
  }

  /** `s.strip()`. */
  function Strip(s: string): (r: string)
    ensures Stripped(r)
  {
    RStrip(LStrip(s))
  }

  /** Length of the leading run of non-whitespace characters. */
  function WordLen(s: string): (n: nat)
    ensures n <= |s|
    ensures NoSpace(s[..n])
    ensures n == |s| || IsSpace(s[n])
    decreases |s|
  {
    if |s| > 0 && !IsSpace(s[0]) then
      var k := WordLen(s[1..]);
      assert s[..1 + k] == [s[0]] + s[1..][..k];
      1 + k
    else 0
  }

  /** `s.split()`: the maximal runs of non-whitespace, in order. */
  function Split(s: string): (ws: seq<string>)
    ensures AllTokens(ws)
    decreases |s|
  {
    var t := LStrip(s);
    if t == [] then []
    else
      var n := WordLen(t);
      assert n > 0 by {
        assert !IsSpace(t[0]);
      }
      var rest := Split(t[n..]);
      AllTokensCons(t[..n], rest);
      [t[..n]] + rest
  }

  lemma AllTokensCons(w: string, ws: seq<string>)
    requires IsToken(w) && AllTokens(ws)
    ensures AllTokens([w] + ws)
  {
    assert forall i :: 0 < i <= |ws| ==> ([w] + ws)[i] == ws[i - 1];
  }

  /** `s.split(maxsplit=1)`: the first word and, when anything but
      whitespace follows it, the rest of the string from the next
      non-whitespace character on. The rest is the string's own text:
      inner spacing, line breaks and trailing whitespace are kept. */
  function SplitOnce(s: string): (parts: seq<string>)
    ensures |parts| <= 2
    ensures |parts| == 2 <==> LStrip(s[FirstWordEnd(s)..]) != []
    ensures |parts| == 2 ==> parts[1] == LStrip(s[FirstWordEnd(s)..])
  {
    var t := LStrip(s);
    if t == [] then
      assert s[FirstWordEnd(s)..] == [];
      []
    else
      var n := WordLen(t);
      assert FirstWordEnd(s) == |s| - |t| + n;
      SuffixDrop(s, t, n);
      assert t[n..] == s[FirstWordEnd(s)..];
      var rest := LStrip(t[n..]);
      if rest == [] then [t[..n]] else [t[..n], rest]
  }

  /** Where the first word of `s` ends: after the leading whitespace and
      the run of non-whitespace that follows it. */
  function FirstWordEnd(s: string): (n: nat)
    ensures |s| - |LStrip(s)| <= n <= |s|
    ensures n == |s| || IsSpace(s[n])
  {
    |s| - |LStrip(s)| + WordLen(LStrip(s))
  }

  /** Dropping from a suffix `t` of `s` is dropping from `s` further
      along. */
  lemma SuffixDrop(s: string, t: string, n: nat)
    requires |t| <= |s| && t == s[|s| - |t|..] && n <= |t|
    ensures t[n..] == s[|s| - |t| + n..]
  {
  }

  /** Only whitespace strips to nothing. */
  lemma LStripEmpty(s: string)
    ensures LStrip(s) == [] <==> AllSpace(s)
  {
    assert s[..|s|] == s;
  }

  /** Stripping leading whitespace twice is stripping it once. */
  lemma LStripTwice(s: string)
    ensures LStrip(LStrip(s)) == LStrip(s)
  {
  }

  /** `' '.join(ws)`. */
  function Join(ws: seq<string>): (s: string)
    decreases |ws|
  {
    if |ws| == 0 then ""
    else if |ws| == 1 then ws[0]
    else ws[0] + " " + Join(ws[1..])
  }

  /** Whitespace in front of a string does not change its words. */
  lemma {:induction false} SplitSpacePrefix(a: string, s: string)
    requires AllSpace(a)
    ensures Split(a + s) == Split(s)
    decreases |a|
  {
    if |a| == 0 {
      assert a + s == s;
    } else {
      assert (a + s)[1..] == a[1..] + s;
      SplitSpacePrefix(a[1..], s);
      LStripSpacePrefix(a, s);
    }
  }

  lemma {:induction false} LStripSpacePrefix(a: string, s: string)
    requires AllSpace(a)
    ensures LStrip(a + s) == LStrip(s)
    decreases |a|
  {
    if |a| == 0 {
      assert a + s == s;
    } else {
      assert (a + s)[1..] == a[1..] + s;
      LStripSpacePrefix(a[1..], s);
    }
  }

  /** Stripping in front of a string that still has a non-space character
      leaves whatever follows it untouched. */
  lemma {:induction false} LStripAppend(s: string, u: string)
    requires LStrip(s) != []
    ensures LStrip(s + u) == LStrip(s) + u
    decreases |s|
  {
    if IsSpace(s[0]) {
      assert (s + u)[1..] == s[1..] + u;
      LStripAppend(s[1..], u);
    }
  }

  lemma {:induction false} WordLenAppendSpace(t: string, b: string)
    requires AllSpace(b)
    ensures WordLen(t + b) == WordLen(t)
    decreases |t|
  {
    if |t| == 0 {
      assert t + b == b;
    } else if !IsSpace(t[0]) {
      assert (t + b)[1..] == t[1..] + b;
      WordLenAppendSpace(t[1..], b);
    }
  }

  /** Whitespace after a string does not change its words. */
  lemma {:induction false} SplitSpaceSuffix(s: string, b: string)
    requires AllSpace(b)
    ensures Split(s + b) == Split(s)
    decreases |s|
  {
    var t := LStrip(s);
    if t == [] {
      AllSpaceSplit(s);
      AllSpaceAppend(s, b);
      AllSpaceSplit(s + b);
    } else {
      var n := WordLen(t);
      LStripAppend(s, b);
      WordLenAppendSpace(t, b);
      SliceAppend(t, b, n);
      SplitSpaceSuffix(t[n..], b);
      SplitUnfold(s + b);
      SplitUnfold(s);
    }
  }

  /** One step of `split()` on a string with a word in it. */
  lemma SplitUnfold(s: string)
    requires LStrip(s) != []
    ensures Split(s) == [LStrip(s)[..WordLen(LStrip(s))]] + Split(LStrip(s)[WordLen(LStrip(s))..])
  {
  }

  /** A string of whitespace has no words. */
  lemma AllSpaceSplit(s: string)
    requires AllSpace(s) || LStrip(s) == []
    ensures Split(s) == []
  {
    if AllSpace(s) {
      assert s == s + [];
      SplitSpacePrefix(s, []);
    }
  }

  lemma AllSpaceAppend(s: string, b: string)
    requires LStrip(s) == [] && AllSpace(b)
    ensures AllSpace(s + b)
  {
    assert s == s[..|s| - |LStrip(s)|];
  }

  lemma SliceAppend(t: string, b: string, n: nat)
    requires n <= |t|
    ensures (t + b)[..n] == t[..n] && (t + b)[n..] == t[n..] + b
  {
  }

  /** `split()` ignores the whitespace that `strip()` removes. */
  lemma SplitStrip(s: string)
    ensures Split(Strip(s)) == Split(s)
  {
    var l := LStrip(s);
    SplitLStrip(s);
    SplitRStrip(l);
  }

  lemma SplitLStrip(s: string)
    ensures Split(LStrip(s)) == Split(s)
  {
    var l := LStrip(s);
    var k := |s| - |l|;
    SliceConcat(s, k);
    SplitSpacePrefix(s[..k], l);
  }

  lemma SplitRStrip(l: string)
    ensures Split(RStrip(l)) == Split(l)
  {
    var r := RStrip(l);
    SliceConcat(l, |r|);
    SplitSpaceSuffix(r, l[|r|..]);
  }

  lemma SliceConcat(s: string, k: nat)
    requires k <= |s|
    ensures s == s[..k] + s[k..]
  {
  }

  /** The two parts `split(maxsplit=1)` returns are the first word and a
      string holding exactly the remaining words, so it yields two parts
      precisely when there are at least two words. */
  lemma SplitOnceWords(s: string)
    ensures |SplitOnce(s)| == if |Split(s)| < 2 then |Split(s)| else 2
    ensures |SplitOnce(s)| >= 1 ==> SplitOnce(s)[0] == Split(s)[0]
    ensures |SplitOnce(s)| == 2 ==> Split(SplitOnce(s)[1]) == Split(s)[1..]
  {
    var t := LStrip(s);
    if t == [] {
      AllSpaceSplit(s);
      assert SplitOnce(s) == [];
    } else {
      var n := WordLen(t);
      var u := t[n..];
      var rest := LStrip(u);
      var w := t[..n];
      SplitUnfold(s);
      assert Split(s) == [w] + Split(u);
      SplitLStrip(u);
      assert Split(rest) == Split(u);
      if rest == [] {
        AllSpaceSplit(u);
        assert Split(s) == [w];
        assert SplitOnce(s) == [w];
      } else {
        SplitUnfold(rest);
        assert |Split(u)| >= 1;
        assert SplitOnce(s) == [w, rest];
        assert Split(s)[1..] == Split(u);
      }
    }
  }

  /** Joining words with single spaces and splitting again gives the
      words back. */
  lemma {:induction false} SplitJoin(ws: seq<string>)
    requires AllTokens(ws)
    ensures Split(Join(ws)) == ws
    decreases |ws|
  {
    if |ws| == 1 {
      SplitToken(ws[0]);
    } else if |ws| > 1 {
      var rest := Join(ws[1..]);
      assert Join(ws) == ws[0] + (" " + rest);
      calc {
        Split(Join(ws));
        { SplitCons(ws[0], " " + rest); }
        [ws[0]] + Split(" " + rest);
        { assert AllSpace(" "); SplitSpacePrefix(" ", rest); }
        [ws[0]] + Split(rest);
        { SplitJoin(ws[1..]); }
        [ws[0]] + ws[1..];
      }
      assert ws == [ws[0]] + ws[1..];
    }
  }

  /** Two words with whitespace between them split into those two words. */
  lemma SplitTwo(w1: string, sep: string, w2: string)
    requires IsToken(w1) && IsToken(w2) && |sep| > 0 && AllSpace(sep)
    ensures Split(w1 + sep + w2) == [w1, w2]
  {
    assert w1 + sep + w2 == w1 + (sep + w2);
    SplitCons(w1, sep + w2);
    SplitSpacePrefix(sep, w2);
    SplitToken(w2);
  }

  /** A word followed by whitespace splits into that one word. */
  lemma SplitTrailing(w: string, sep: string)
    requires IsToken(w) && AllSpace(sep)
    ensures Split(w + sep) == [w]
  {
    SplitSpaceSuffix(w, sep);
    SplitToken(w);
  }

  /** A single word splits to itself. */
  lemma SplitToken(w: string)
    requires IsToken(w)
    ensures Split(w) == [w]
  {
    WordLenAll(w);
    assert w[..|w|] == w;
    assert LStrip(w[|w|..]) == [];
  }

  /** A word followed by whitespace splits off as the first word. */
  lemma SplitCons(w: string, u: string)
    requires IsToken(w) && |u| > 0 && IsSpace(u[0])
    ensures Split(w + u) == [w] + Split(u)
  {
    var j := w + u;
    assert LStrip(j) == j;
    WordLenSpace(w, u);
    assert j[..|w|] == w;
    assert j[|w|..] == u;
  }

  lemma {:induction false} WordLenAll(w: string)
    requires NoSpace(w)
    ensures WordLen(w) == |w|
    decreases |w|
  {
    if |w| > 0 {
      WordLenAll(w[1..]);
    }
  }

  lemma {:induction false} WordLenSpace(w: string, u: string)
    requires NoSpace(w) && |u| > 0 && IsSpace(u[0])
    ensures WordLen(w + u) == |w|
    decreases |w|
  {
    if |w| > 0 {
      assert (w + u)[1..] == w[1..] + u;
      WordLenSpace(w[1..], u);
    } else {
      assert w + u == u;
    }
  }

  /** A join of words starts and ends with a non-space character, and a
      join of several words is longer than its first word. */
  lemma {:induction false} JoinEnds(ws: seq<string>)
    requires AllTokens(ws) && |ws| > 0
    ensures |Join(ws)| > 0
    ensures Join(ws)[0] == ws[0][0]
    ensures Join(ws)[|Join(ws)| - 1] == ws[|ws| - 1][|ws[|ws| - 1]| - 1]
    decreases |ws|
  {
    if |ws| > 1 {
      var rest := Join(ws[1..]);
      JoinEnds(ws[1..]);
      assert Join(ws) == ws[0] + " " + rest;
      assert ws[1..][|ws[1..]| - 1] == ws[|ws| - 1];
      assert ws[0] != [];
    }
  }

  /** Stripping a join of words changes nothing. */
  lemma StripJoin(ws: seq<string>)
    requires AllTokens(ws)
    ensures Strip(Join(ws)) == Join(ws)
  {
    if |ws| > 0 {
      JoinEnds(ws);
      assert !IsSpace(ws[0][0]);
      assert !IsSpace(ws[|ws| - 1][|ws[|ws| - 1]| - 1]);
    }
  }
}
