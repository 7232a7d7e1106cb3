/** `SdkLogger`: log levels, a per-instance message buffer that is written
    out as one line, and the static low-level call that prefixes tags and
    renders throwable arguments.

    `android.util.Log` is not modelled: a call produces the `LogLine` it
    would hand to `Log.println`. `String.format` and
    `Log.getStackTraceString` are parameters. */
module SdkLogger {
  import O = Outcomes
  import opened Text
  import opened Throwables
  import Enums

  // ---------------------------------------------------------------------
  // Levels
  // ---------------------------------------------------------------------

  datatype LogLevel = Verbose | Debug | Info | Warn | Error | None

  /** The `android.util.Log` priority of each level. */
  function Code(l: LogLevel): int {
    match l
    case Verbose => 2
    case Debug => 3
    case Info => 4
    case Warn => 5
    case Error => 6
    case None => 7
  }

  /** `values()`, in declaration order. */
  function Levels(): (ls: seq<LogLevel>)
    ensures |ls| == 6
  {
    [Verbose, Debug, Info, Warn, Error, None]
  }

  /** `LogLevel.parse`: the first level with the given code, or null. */
  function Parse(code: int): (r: O.Option<LogLevel>)
    ensures r.Some? ==> Code(r.value) == code
  {
    Enums.FindFirst(Levels(), l => Code(l) == code)
  }

  /** The codes run 2, 3, ..., 7 in declaration order, so they increase
      strictly and no two levels share one. */
  lemma CodesAreConsecutive()
    ensures forall i :: 0 <= i < |Levels()| ==> Code(Levels()[i]) == 2 + i
    ensures forall i, j :: 0 <= i < j < |Levels()| ==> Code(Levels()[i]) < Code(Levels()[j])
  {
  }

  /** Every level is parsed back from its code. */
  lemma ParseCode(l: LogLevel)
    ensures Parse(Code(l)) == O.Some(l)
  {
    CodesAreConsecutive();
    var k := Code(l) - 2;
    assert Levels()[k] == l;
    Enums.FindFirstUnique(Levels(), (m: LogLevel) => Code(m) == Code(l), k);
  }

  /** Exactly the codes 2 to 7 name a level. */
  lemma ParseKnownCodes(code: int)
    ensures Parse(code).None? <==> code < 2 || code > 7
  {
    CodesAreConsecutive();
    if 2 <= code <= 7 {
      assert Code(Levels()[code - 2]) == code;
    }
  }

  // ---------------------------------------------------------------------
  // Rendering throwables
  // ---------------------------------------------------------------------

  const UnknownHostClass := "java.net.UnknownHostException"
  const NoNetworkMessage := "UnknownHostException (no network)"

  predicate IsUnknownHost(th: Throwable) {
    IsInstance(th, UnknownHostClass)
  }

  /** `isCausedByUnknownHostException`. */
  function CausedByUnknownHost(th: Throwable): bool {
    AnyOnChain(th, IsUnknownHost)
  }

  /** The throwable or one of its causes is an `UnknownHostException`. */
  lemma CausedByUnknownHostIff(th: Throwable)
    ensures CausedByUnknownHost(th) <==>
              exists i :: 0 <= i < |Chain(th)| && IsUnknownHost(Chain(th)[i])
  {
    AnyOnChainIff(th, IsUnknownHost);
    var c := Chain(th);
    if CausedByUnknownHost(th) {
      var i :| 0 <= i < |c| && IsUnknownHost(c[i]);
      assert exists i :: 0 <= i < |Chain(th)| && IsUnknownHost(Chain(th)[i]);
    } else {
      forall i | 0 <= i < |c| ensures !IsUnknownHost(c[i]) {
        if IsUnknownHost(c[i]) {
          assert SomeOnChain(th, IsUnknownHost);
        }
      }
    }
  }

  /** The first position at or after `i` that holds no whitespace, or the
      length when there is none. */
  function StartIndex(s: string, i: nat): (j: nat)
    requires i <= |s|
    ensures i <= j <= |s|
    ensures forall k :: i <= k < j ==> IsWhitespace(s[k])
    ensures j < |s| ==> !IsWhitespace(s[j])
    decreases |s| - i
  {
    if i < |s| && IsWhitespace(s[i]) then StartIndex(s, i + 1) else i
  }

  /** The end of `s[lo..j]` once its trailing whitespace is dropped. */
  function EndIndex(s: string, lo: nat, j: nat): (e: nat)
    requires lo <= j <= |s|
    ensures lo <= e <= j
    ensures forall k :: e <= k < j ==> IsWhitespace(s[k])
    ensures e > lo ==> !IsWhitespace(s[e - 1])
  {
    if j > lo && IsWhitespace(s[j - 1]) then EndIndex(s, lo, j - 1) else j
  }

  /** `trim()`: the slice between the leading and the trailing whitespace,
      so it has no whitespace at either end and the rest of the input is
      whitespace only. */
  function Trim(s: string): (r: string)
    ensures var i := StartIndex(s, 0);
      && i + |r| <= |s| && r == s[i..i + |r|]
      && (forall k :: 0 <= k < i ==> IsWhitespace(s[k]))
      && (forall k :: i + |r| <= k < |s| ==> IsWhitespace(s[k]))
    ensures |r| > 0 ==> !IsWhitespace(r[0]) && !IsWhitespace(r[|r| - 1])
  {
    var i := StartIndex(s, 0);
    s[i..EndIndex(s, i, |s|)]
  }

  /** A string trims to nothing exactly when it is blank. */
  lemma TrimEmptyIffBlank(s: string)
    ensures Trim(s) == "" <==> IsBlank(s)
  {
  }

  /** `replace("\t", "    ")`: every tab becomes four spaces. */
  function ReplaceTabs(s: string): (r: string)
    ensures '\t' !in r
    ensures '\t' !in s ==> r == s
    ensures |r| >= |s|
  {
    if |s| == 0 then ""
    else (if s[0] == '\t' then "    " else [s[0]]) + ReplaceTabs(s[1..])
  }

  /** Replacing tabs works piece by piece. */
  lemma {:induction false} ReplaceTabsAppend(a: string, b: string)
    ensures ReplaceTabs(a + b) == ReplaceTabs(a) + ReplaceTabs(b)
  {
    if |a| > 0 {
      var head := if a[0] == '\t' then "    " else [a[0]];
      assert (a + b)[0] == a[0] && (a + b)[1..] == a[1..] + b;
      assert ReplaceTabs(a + b) == head + ReplaceTabs(a[1..] + b);
      ReplaceTabsAppend(a[1..], b);
      assert ReplaceTabs(a) == head + ReplaceTabs(a[1..]);
    } else {
      assert a + b == b;
    }
  }

  /** `getThrowableString`: a fixed short text for a missing network,
      otherwise the trimmed stack trace text with tabs widened.
      `stackTraceString` is what `Log.getStackTraceString` returns. */
  function ThrowableString(th: Throwable, stackTraceString: string): (r: string)
    ensures CausedByUnknownHost(th) ==> r == NoNetworkMessage
    ensures '\t' !in r
  {
    if CausedByUnknownHost(th) then NoNetworkMessage
    else ReplaceTabs(Trim(stackTraceString))
  }

  // ---------------------------------------------------------------------
  // The static low-level call
  // ---------------------------------------------------------------------

  /** A `vararg args: Any?` argument: a throwable, or any other value by
      its rendering. */
  datatype Arg = Thrown(th: Throwable) | Value(text: string)

  /** `String.format`, which throws on a malformed template. */
  type Formatter = (string, seq<Arg>) -> O.Result<string, O.Fault>

  /** What `Log.println(priority, tag, message)` is called with. */
  datatype LogLine = LogLine(priority: int, tag: string, message: string)

  const LogTagBase := "SDK."

  /** The tag as written to the log: prefixed with `"SDK."` unless it
      already starts with it. */
  function FinalTag(tag: string): (r: string)
    ensures StartsWith(r, LogTagBase)
    ensures StartsWith(tag, LogTagBase) ==> r == tag
    ensures !StartsWith(tag, LogTagBase) ==> r == LogTagBase + tag
  {
    if StartsWith(tag, LogTagBase) then tag else LogTagBase + tag
  }

  /** `(arg as? Throwable)?.getThrowableString() ?: arg`: a throwable
      argument is replaced by its rendering. */
  function RenderArg(arg: Arg, stackTraceString: Throwable -> string): (r: Arg)
    ensures r.Value?
    ensures arg.Value? ==> r == arg
    ensures arg.Thrown? ==> r.text == ThrowableString(arg.th, stackTraceString(arg.th))
  {
    match arg
    case Thrown(th) => Value(ThrowableString(th, stackTraceString(th)))
    case Value(_) => arg
  }

  /** Every argument rendered, in order. */
  function RenderArgs(args: seq<Arg>, stackTraceString: Throwable -> string): (r: seq<Arg>)
    ensures |r| == |args|
    ensures forall i :: 0 <= i < |r| ==> r[i] == RenderArg(args[i], stackTraceString)
  {
    if |args| == 0 then []
    else [RenderArg(args[0], stackTraceString)] + RenderArgs(args[1..], stackTraceString)
  }

  /** `printLog(priority, tag, messageOrTemplates, args)`: nothing for a
      null message; otherwise one line whose text is the formatted
      template, or the template itself when formatting throws. */
  function PrintLog(priority: LogLevel, tag: string, messageOrTemplates: O.Option<string>, args: seq<Arg>,
                    format: Formatter, stackTraceString: Throwable -> string): (r: O.Option<LogLine>)
    ensures r.None? <==> messageOrTemplates.None?
    ensures r.Some? ==> r.value.priority == Code(priority) && StartsWith(r.value.tag, LogTagBase)
    ensures r.Some? ==>
              var formatted := format(messageOrTemplates.value, RenderArgs(args, stackTraceString));
              r.value.message == if formatted.Ok? then formatted.value else messageOrTemplates.value
  {
    match messageOrTemplates
    case None => O.None
    case Some(m) =>
      var message := match format(m, RenderArgs(args, stackTraceString))
        case Ok(text) => text
        case Err(_) => m;
      O.Some(LogLine(Code(priority), FinalTag(tag), message))
  }

  /** The prefix is added at most once: a tag already written to the log
      is written the same way again. */
  lemma FinalTagIdempotent(tag: string)
    ensures FinalTag(FinalTag(tag)) == FinalTag(tag)
    ensures |FinalTag(tag)| <= |tag| + |LogTagBase|
  {
  }

  // ---------------------------------------------------------------------
  // Logger instances
  // ---------------------------------------------------------------------

  /** A logger: its tag (already prefixed), the text accumulated since the
      last `log()` and its priority. */
  datatype Logger = Logger(tag: string, accumulated: string, priority: LogLevel)

  /** `SdkLogger(tag)`: the tag is prefixed unconditionally, the buffer is
      empty and the priority is `DEBUG`. */
  function NewLogger(tag: string): (l: Logger)
    ensures l.tag == LogTagBase + tag && l.accumulated == "" && l.priority == Debug
  {
    Logger(LogTagBase + tag, "", Debug)
  }

  /** `message`. */
  function Message(l: Logger): string {
    l.accumulated
  }

  function Append(l: Logger, text: string): (r: Logger)
    ensures Message(r) == Message(l) + text
    ensures r.tag == l.tag && r.priority == l.priority
  {
    l.(accumulated := l.accumulated + text)
  }

  /** `append(format, args)`: the formatted text, or the formatter's error
      with the buffer untouched. */
  function AppendFormat(l: Logger, template: string, args: seq<Arg>, format: Formatter): (r: O.Result<Logger, O.Fault>)
    ensures r.Ok? <==> format(template, args).Ok?
    ensures r.Ok? ==> r.value == Append(l, format(template, args).value)
  {
    var text :- format(template, args);
    O.Ok(Append(l, text))
  }

  /** `appendWithKeyValue`: the key, a tab, the value and a newline. */
  function AppendWithKeyValue(l: Logger, key: string, value: string): (r: Logger)
    ensures Message(r) == Message(l) + key + "\t" + value + "\n"
  {
    Append(l, key + "\t" + value + "\n")
  }

  /** `printLog(message)`: writes one line at the logger's priority and
      under its tag; the buffer is not involved. */
  function PrintMessage(l: Logger, message: string, format: Formatter, stackTraceString: Throwable -> string)
    : (r: O.Option<LogLine>)
    ensures r.Some? && r.value.priority == Code(l.priority)
  {
    PrintLog(l.priority, l.tag, O.Some(message), [], format, stackTraceString)
  }

  /** Hands the buffer to the caller and empties it. */
  function Flush(l: Logger): (r: (Logger, string))
    ensures r.1 == Message(l) && Message(r.0) == ""
    ensures r.0.tag == l.tag && r.0.priority == l.priority
  {
    (l.(accumulated := ""), l.accumulated)
  }

  /** `log()`: writes the accumulated text as one line, then starts over
      with an empty buffer. */
  function Log(l: Logger, format: Formatter, stackTraceString: Throwable -> string): (r: (Logger, O.Option<LogLine>))
    ensures Message(r.0) == "" && r.0.tag == l.tag && r.0.priority == l.priority
    ensures r.1.Some? && r.1.value.priority == Code(l.priority)
    ensures format(Message(l), []).Err? ==> r.1.value.message == Message(l)
  {
    var (cleared, text) := Flush(l);
    (cleared, PrintMessage(l, text, format, stackTraceString))
  }

  /** An instance's lines carry "SDK." followed by the name given to the
      constructor: the constructor adds the prefix unconditionally (so the
      name "SDK.X" logs under "SDK.SDK.X"), and the static call, seeing the
      prefix, does not add a second one. */
  lemma LoggerTagPrefixedOnce(tag: string, format: Formatter, stackTraceString: Throwable -> string)
    ensures Log(NewLogger(tag), format, stackTraceString).1.value.tag == LogTagBase + tag
  {
    assert StartsWith(LogTagBase + tag, LogTagBase);
  }

  // ---------------------------------------------------------------------
  // The buffer over a sequence of calls
  // ---------------------------------------------------------------------

  datatype Call = AppendText(text: string) | AppendKeyValue(key: string, value: string) | LogNow

  /** The text a call adds to the buffer. */
  function Added(c: Call): string {
    match c
    case AppendText(t) => t
    case AppendKeyValue(k, v) => k + "\t" + v + "\n"
    case LogNow => ""
  }

  /** Everything the calls add, in order. */
  function AddedText(calls: seq<Call>): string {
    if |calls| == 0 then "" else Added(calls[0]) + AddedText(calls[1..])
  }

  predicate NoLogCall(calls: seq<Call>) {
    forall i :: 0 <= i < |calls| ==> !calls[i].LogNow?
  }

  function Step(l: Logger, c: Call): Logger {
    match c
    case AppendText(t) => Append(l, t)
    case AppendKeyValue(k, v) => AppendWithKeyValue(l, k, v)
    case LogNow => Flush(l).0
  }

  /** The logger after the calls, and the text each `log()` wrote. */
  function Run(l: Logger, calls: seq<Call>): (r: (Logger, seq<string>))
    ensures r.0.tag == l.tag && r.0.priority == l.priority
    decreases |calls|
  {
    if |calls| == 0 then (l, [])
    else
      var rest := Run(Step(l, calls[0]), calls[1..]);
      (rest.0, (if calls[0].LogNow? then [Flush(l).1] else []) + rest.1)
  }

  lemma {:induction false} RunAppend(l: Logger, a: seq<Call>, b: seq<Call>)
    ensures Run(l, a + b).0 == Run(Run(l, a).0, b).0
    decreases |a|
  {
    if |a| > 0 {
      assert (a + b)[0] == a[0] && (a + b)[1..] == a[1..] + b;
      RunAppend(Step(l, a[0]), a[1..], b);
    } else {
      assert a + b == b;
    }
  }

  /** Without a `log()`, the calls only add to the buffer. */
  lemma {:induction false} RunWithoutLog(l: Logger, calls: seq<Call>)
    requires NoLogCall(calls)
    ensures Message(Run(l, calls).0) == Message(l) + AddedText(calls)
    ensures Run(l, calls).1 == []
    decreases |calls|
  {
    if |calls| > 0 {
      var c, rest := calls[0], calls[1..];
      assert !c.LogNow?;
      assert NoLogCall(rest) by {
        forall i | 0 <= i < |rest| ensures !rest[i].LogNow? {
          assert rest[i] == calls[i + 1];
        }
      }
      var next := Step(l, c);
      assert Message(next) == Message(l) + Added(c);
      RunWithoutLog(next, rest);
      assert Run(l, calls) == (Run(next, rest).0, [] + Run(next, rest).1);
      assert AddedText(calls) == Added(c) + AddedText(rest);
    }
  }

  /** `message` is the concatenation of everything appended since the last
      `log()`, or since construction when there was none. */
  lemma MessageIsAppendsSinceLastLog(l: Logger, calls: seq<Call>, k: int)
    requires 0 <= k < |calls| && calls[k].LogNow? && NoLogCall(calls[k + 1..])
    ensures Message(Run(l, calls).0) == AddedText(calls[k + 1..])
  {
    var before, after := calls[..k], calls[k + 1..];
    assert calls == (before + [LogNow]) + after;
    RunAppend(l, before + [LogNow], after);
    RunAppend(l, before, [LogNow]);
    var cleared := Run(l, before + [LogNow]).0;
    assert Message(cleared) == "";
    RunWithoutLog(cleared, after);
  }

  /** From a new logger without any `log()`, the message is everything
      appended. */
  lemma NewLoggerMessageIsAllAppends(tag: string, calls: seq<Call>)
    requires NoLogCall(calls)
    ensures Message(Run(NewLogger(tag), calls).0) == AddedText(calls)
  {
    RunWithoutLog(NewLogger(tag), calls);
  }
}
