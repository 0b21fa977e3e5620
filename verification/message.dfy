/** The wrapped chat message: the argument text after the command word,
    the fallback to the replied-to message's text, and the flag map and
    filtered argument string, computed once and cached on the message. */
module Msg {
  import opened Wrappers
  import opened Text
  import opened Flags

  /** The exception reading the arguments can raise: the text holds a
      space but fewer than two words, so `split(maxsplit=1)[1]` is out of
      range. */
  datatype PyError = IndexError

  /** The replied-to message, as far as the wrapper looks at it: its id and
      its text, which media messages do not have. */
  datatype Replied = Replied(id: int, text: Option<string>)

  /** The keyword options the wrapper is built with: the flag prefix (a
      single character, `-` by default) and `del_pre`. */
  datatype Options = Options(prefix: char, delPre: bool)

  /** A wrapped message: what the wrapper reads from the underlying message
      and the per-message state it keeps (the scan-once latch, the cached
      scan results and the cancellation latch). */
  datatype Message = Message(
    id: int,
    chatType: string,
    text: string,
    replyTo: Option<Replied>,
    options: Options,
    filtered: bool,
    processCanceled: bool,
    filteredInputStr: string,
    flags: map<string, string>)

  /** The arguments: `""` when the text holds no space character, otherwise
      the text after the first word with surrounding whitespace stripped,
      and an error when a space is present but there is no second word. */
  function InputStr(text: string): (r: Result<string, PyError>)
    ensures ' ' !in text ==> r == Ok("")
    ensures r.Ok? ==> Stripped(r.value)
  {
    if ' ' in text then
      var parts := SplitOnce(text);
      if |parts| < 2 then Err(IndexError) else Ok(Strip(parts[1]))
    else Ok("")
  }

  /** When the text holds a space, the arguments are the text itself after
      the command word, with only the surrounding whitespace stripped:
      inner spaces, tabs and line breaks are kept. Reading them fails
      exactly when nothing but whitespace follows the command word. */
  lemma InputStrIsRest(text: string)
    requires ' ' in text
    ensures InputStr(text).Err? <==> AllSpace(text[FirstWordEnd(text)..])
    ensures InputStr(text).Ok? ==> InputStr(text).value == Strip(text[FirstWordEnd(text)..])
  {
    var rest := text[FirstWordEnd(text)..];
    var parts := SplitOnce(text);
    assert |parts| == 2 <==> !AllSpace(rest) by {
      LStripEmpty(rest);
    }
    if |parts| == 2 {
      LStripTwice(rest);
    }
  }

  /** When the text holds a space, reading the arguments fails exactly when
      the text has fewer than two words, and otherwise yields a string whose
      words are the words of the text after the command word. */
  lemma InputStrWords(text: string)
    requires ' ' in text
    ensures InputStr(text).Ok? <==> |Split(text)| >= 2
    ensures InputStr(text).Ok? ==> Split(InputStr(text).value) == Split(text)[1..]
  {
    SplitOnceWords(text);
    var parts := SplitOnce(text);
    if |parts| == 2 {
      SplitStrip(parts[1]);
    }
  }

  /** Arguments separated from the command by whitespace other than a
      space are not seen: `split()` finds two words, but the space test
      fails and the arguments read as empty. */
  lemma TabSeparatedArgumentsIgnored(cmd: string, arg: string)
    requires IsToken(cmd) && IsToken(arg)
    ensures Split(cmd + "\t" + arg) == [cmd, arg]
    ensures InputStr(cmd + "\t" + arg) == Ok("")
  {
    assert AllSpace("\t");
    SplitTwo(cmd, "\t", arg);
    NoSpaceHasNoBlank(cmd);
    NoSpaceHasNoBlank(arg);
    assert ' ' !in cmd + "\t" + arg;
  }

  /** A string without whitespace holds no space character. */
  lemma NoSpaceHasNoBlank(s: string)
    requires NoSpace(s)
    ensures ' ' !in s
  {
    assert IsSpace(' ');
  }

  /** A command followed by a space and nothing else raises instead of
      yielding empty arguments. */
  lemma TrailingSpaceRaises(cmd: string)
    requires IsToken(cmd)
    ensures InputStr(cmd + " ") == Err(IndexError)
  {
    var text := cmd + " ";
    assert ' ' in text by {
      assert text[|cmd|] == ' ';
    }
    assert AllSpace(" ");
    SplitTrailing(cmd, " ");
    InputStrWords(text);
  }

  /** The arguments, or when there are none and the message replies to
      another one, the replied-to text stripped (`""` if it has none). */
  function InputOrReplyStr(m: Message): (r: Result<string, PyError>)
    ensures r.Err? <==> InputStr(m.text).Err?
    ensures InputStr(m.text).Ok? && InputStr(m.text).value != "" ==> r == InputStr(m.text)
    ensures InputStr(m.text) == Ok("") && m.replyTo.None? ==> r == Ok("")
    ensures InputStr(m.text) == Ok("") && m.replyTo.Some? ==>
              r == Ok(Strip(m.replyTo.value.text.GetOr("")))
    ensures r.Ok? ==> Stripped(r.value)
  {
    match InputStr(m.text)
    case Err(e) => Err(e)
    case Ok(s) =>
      if s == [] && m.replyTo.Some? then
        Ok(Strip(m.replyTo.value.text.GetOr("")))
      else Ok(s)
  }

  /** The argument words the scan goes through. */
  function Args(text: string): (ws: seq<string>)
    requires InputStr(text).Ok?
    ensures AllTokens(ws)
  {
    Split(Strip(InputStr(text).value))
  }

  /** The cached scan results agree with the argument words: empty before
      the first scan (as the wrapper is built), and afterwards the flag
      entries are the last value of each flag key and the filtered string
      is the other words joined by single spaces. */
  ghost predicate Valid(m: Message) {
    if !m.filtered then m.filteredInputStr == "" && m.flags == map[]
    else
      && InputStr(m.text).Ok?
      && m.filteredInputStr == Join(NonFlags(m.options.prefix, Args(m.text)))
      && forall k :: Lookup(m.flags, k) == LastValue(m.options.prefix, m.options.delPre, Args(m.text), k)
  }

  /** Wraps a message: nothing scanned, nothing cancelled yet. */
  function Wrap(id: int, chatType: string, text: string, replyTo: Option<Replied>, options: Options): (m: Message)
    ensures Valid(m) && !m.filtered && !m.processCanceled
    ensures m.id == id && m.text == text && m.replyTo == replyTo && m.options == options
  {
    Message(id, chatType, text, replyTo, options, false, false, "", map[])
  }

  /** The scan-once step behind `flags` and `filtered_input_str`: the first
      call scans the argument words and latches, later calls change
      nothing; only the cached fields and the latch are touched. */
  function Filter(m: Message): (r: Result<Message, PyError>)
    requires !IsRegexMeta(m.options.prefix)
    ensures m.filtered ==> r == Ok(m)
    ensures !m.filtered ==> (r.Err? <==> InputStr(m.text).Err?)
    ensures r.Ok? ==> r.value.filtered
    ensures r.Ok? ==> r.value == m.(filtered := true, flags := r.value.flags, filteredInputStr := r.value.filteredInputStr)
  {
    if m.filtered then Ok(m)
    else
      match InputStr(m.text)
      case Err(e) => Err(e)
      case Ok(s) =>
        var st := Scan(m.options.prefix, m.options.delPre, Split(Strip(s)), Parsed(m.flags, m.filteredInputStr));
        Ok(m.(filtered := true, flags := st.flags, filteredInputStr := Strip(st.acc)))
  }

  /** Scanning a valid message leaves it valid: the first scan fills the
      caches with exactly the flag values and the filtered words, and a
      second one appends nothing. */
  lemma FilterComputes(m: Message)
    requires !IsRegexMeta(m.options.prefix)
    requires Valid(m)
    ensures Filter(m).Ok? ==> Valid(Filter(m).value)
  {
    if !m.filtered && Filter(m).Ok? {
      var p, d := m.options.prefix, m.options.delPre;
      var ts := Args(m.text);
      var st0 := Parsed(map[], "");
      var m' := Filter(m).value;
      ScanAcc(p, d, ts, st0);
      assert "" + Spaced(NonFlags(p, ts)) == Spaced(NonFlags(p, ts));
      StripSpaced(NonFlags(p, ts));
      forall k ensures Lookup(m'.flags, k) == LastValue(p, d, ts, k) {
        ScanFlags(p, d, ts, st0, k);
      }
    }
  }

  /** The `flags` property: scans if needed and returns the flag map; a
      second read returns the same map and leaves the message as it is. */
  function FlagsOf(m: Message): (r: Result<(Message, map<string, string>), PyError>)
    requires !IsRegexMeta(m.options.prefix)
    ensures r.Err? <==> Filter(m).Err?
    ensures r.Ok? ==> r.value.0.filtered && r.value.1 == r.value.0.flags
  {
    match Filter(m)
    case Err(e) => Err(e)
    case Ok(m') => Ok((m', m'.flags))
  }

  /** The `filtered_input_str` property: scans if needed and returns the
      non-flag words; a second read returns the same string and leaves the
      message as it is. */
  function FilteredInputStr(m: Message): (r: Result<(Message, string), PyError>)
    requires !IsRegexMeta(m.options.prefix)
    ensures r.Err? <==> Filter(m).Err?
    ensures r.Ok? ==> r.value.0.filtered && r.value.1 == r.value.0.filteredInputStr
  {
    match Filter(m)
    case Err(e) => Err(e)
    case Ok(m') => Ok((m', m'.filteredInputStr))
  }

  /** The scan runs at most once: reading either property again, in any
      order, returns the same value and leaves the message unchanged, so no
      word is appended to the filtered string twice. */
  lemma RepeatedReads(m: Message)
    requires !IsRegexMeta(m.options.prefix)
    ensures Filter(m).Ok? ==> Filter(Filter(m).value) == Filter(m)
    ensures FlagsOf(m).Ok? ==> FlagsOf(FlagsOf(m).value.0) == FlagsOf(m)
    ensures FlagsOf(m).Ok? ==> FilteredInputStr(FlagsOf(m).value.0) == FilteredInputStr(m)
    ensures FilteredInputStr(m).Ok? ==> FilteredInputStr(FilteredInputStr(m).value.0) == FilteredInputStr(m)
    ensures FilteredInputStr(m).Ok? ==> FlagsOf(FilteredInputStr(m).value.0) == FlagsOf(m)
  {
  }

  /** What the two properties return on a freshly wrapped message: every
      argument word is either a flag, stored under its key with the value
      of its last occurrence, or one of the filtered words, kept in order
      and joined by single spaces; the filtered string has no surrounding
      whitespace and splits back into exactly those words. */
  lemma ReadsOfFreshMessage(m: Message)
    requires !IsRegexMeta(m.options.prefix)
    requires Valid(m) && !m.filtered && InputStr(m.text).Ok?
    ensures FlagsOf(m).Ok? && FilteredInputStr(m).Ok?
    ensures forall k :: Lookup(FlagsOf(m).value.1, k) ==
                        LastValue(m.options.prefix, m.options.delPre, Args(m.text), k)
    ensures forall k :: k in FlagsOf(m).value.1 <==>
                        exists t :: t in FlagWords(m.options.prefix, Args(m.text)) &&
                                    Carries(m.options.prefix, m.options.delPre, t, k)
    ensures FilteredInputStr(m).value.1 == Join(NonFlags(m.options.prefix, Args(m.text)))
    ensures Split(FilteredInputStr(m).value.1) == NonFlags(m.options.prefix, Args(m.text))
    ensures Strip(FilteredInputStr(m).value.1) == FilteredInputStr(m).value.1
  {
    FilterComputes(m);
    var m' := Filter(m).value;
    assert Valid(m');
    var ws := NonFlags(m.options.prefix, Args(m.text));
    assert FilteredInputStr(m).value.1 == Join(ws);
    SplitJoin(ws);
    StripJoin(ws);
    forall k ensures k in FlagsOf(m).value.1 <==>
                     exists t :: t in FlagWords(m.options.prefix, Args(m.text)) &&
                                 Carries(m.options.prefix, m.options.delPre, t, k) {
      FlagWordsKeys(m.options.prefix, m.options.delPre, Args(m.text), k);
    }
  }

  /** The words the scan goes through are the words of the text after the
      command word (none when the text holds no space). */
  lemma ArgsAreWordsAfterCommand(text: string)
    requires InputStr(text).Ok?
    ensures Args(text) == if ' ' in text then Split(text)[1..] else []
  {
    var s := InputStr(text).value;
    calc {
      Args(text);
      Split(Strip(s));
      { SplitStrip(s); }
      Split(s);
    }
    if ' ' in text {
      InputStrWords(text);
    } else {
      assert s == [];
      assert LStrip(s) == [];
    }
  }
}
