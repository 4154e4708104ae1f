/**
 * The deterministic part of WebserviceHandler: `pad`, the name `logXML` gives a log file, and
 * which log files `Call` writes. The clock readings are parameters; the transport reply is a
 * parameter of Call; a written file is recorded in the `logFiles` field.
 */
module Webservice {
  import opened Wrappers
  import opened Strings
  import opened Decimal

  /* ---------------------------------------------------------------------------------------
   * pad
   * ------------------------------------------------------------------------------------- */

  /**
   * How many times the loop of `pad` adds a `step`-long padding to a `have`-long string
   * before it is at least `length` long.
   */
  function Copies(have: int, length: int, step: nat): nat
    requires step > 0 || have >= length
    decreases length - have
  {
    if have >= length then 0 else 1 + Copies(have + step, length, step)
  }

  /** The loop adds the fewest copies that bring the string to `length`. */
  lemma {:induction false} CopiesMinimal(have: int, length: int, step: nat)
    requires step > 0 || have >= length
    ensures have + Copies(have, length, step) * step >= length
    ensures Copies(have, length, step) > 0 ==> have + (Copies(have, length, step) - 1) * step < length
    decreases length - have
  {
    if have < length {
      CopiesMinimal(have + step, length, step);
      var k := Copies(have + step, length, step);
      assert (k + 1) * step == k * step + step;
      if k > 0 {
        assert k * step == (k - 1) * step + step;
      }
    }
  }

  /** What `pad` returns for the decimal string `digits`. */
  function PadResult(digits: string, length: int, padding: string, fromFront: bool): string
    requires |padding| > 0 || |digits| >= length
  {
    var k := Copies(|digits|, length, |padding|);
    if fromFront then Repeat(padding, k) + digits else digits + Repeat(padding, k)
  }

  /** `pad(number)` with its default arguments: two characters, padded with `0` in front. */
  function Pad2(number: int): string {
    PadResult(IntToString(number), 2, "0", true)
  }

  /**
   * A string at least `length` long is returned as it is. Otherwise the digits are kept at the
   * end (padding in front) or at the start (padding behind), and the result is the shortest
   * one the padding can make that is at least `length` long.
   */
  lemma PadShape(digits: string, length: int, padding: string, fromFront: bool)
    requires |padding| > 0 || |digits| >= length
    ensures var r := PadResult(digits, length, padding, fromFront);
      (|digits| >= length ==> r == digits) &&
      (fromFront ==> EndsWith(r, digits)) &&
      (!fromFront ==> digits <= r) &&
      |r| >= length && |r| >= |digits| &&
      (|r| > |digits| ==> |r| - |padding| < length)
  {
    var k := Copies(|digits|, length, |padding|);
    CopiesMinimal(|digits|, length, |padding|);
    var r := PadResult(digits, length, padding, fromFront);
    assert |r| == |digits| + k * |padding|;
    if k > 0 {
      assert k * |padding| == (k - 1) * |padding| + |padding|;
    }
    if fromFront {
      assert r[|r| - |digits|..] == digits;
    }
  }

  lemma {:induction false} RepeatChar(c: char, k: nat)
    ensures forall i :: 0 <= i < |Repeat([c], k)| ==> Repeat([c], k)[i] == c
  {
    if k > 0 {
      RepeatChar(c, k - 1);
    }
  }

  /**
   * With a one-character padding the result is exactly `max(|digits|, length)` long, and
   * every character the padding added is that character.
   */
  lemma PadOneCharacter(digits: string, length: int, padding: string, fromFront: bool)
    requires |padding| == 1
    ensures var r := PadResult(digits, length, padding, fromFront);
      |r| == (if |digits| >= length then |digits| else length) &&
      (fromFront ==> forall i :: 0 <= i < |r| - |digits| ==> r[i] == padding[0]) &&
      (!fromFront ==> forall i :: |digits| <= i < |r| ==> r[i] == padding[0])
  {
    PadShape(digits, length, padding, fromFront);
    var k := Copies(|digits|, length, |padding|);
    assert padding == [padding[0]];
    RepeatChar(padding[0], k);
  }

  /**
   * With the defaults, a number from 0 to 99 becomes exactly two digits that read back as
   * the number: a number below ten gets one leading zero.
   */
  lemma PadTwoDigits(n: int)
    requires 0 <= n < 100
    ensures |Pad2(n)| == 2 && IsDigits(Pad2(n)) && ParseNat(Pad2(n)) == n
  {
    var digits := NatToString(n);
    ParseNatToString(n);
    var r := Pad2(n);
    if n < 10 {
      assert Copies(1, 2, 1) == 1;
      assert Repeat("0", 1) == "0";
      assert r == "0" + digits;
      assert r[..1] == "0" && r[..1][..0] == [];
      assert r[1..] == digits && digits[..0] == [];
    } else {
      assert |digits| == |NatToString(n / 10)| + 1 == 2;
      assert Copies(2, 2, 1) == 0;
      EmptyAppend(digits);
    }
  }

  /** `pad(7)`, `pad(0)`, `pad(45)` and `pad(-5)` with the defaults. */
  lemma PadExamples()
    ensures Pad2(7) == "07" && Pad2(0) == "00" && Pad2(45) == "45" && Pad2(-5) == "-5"
  {
    assert Copies(1, 2, 1) == 1 && Copies(2, 2, 1) == 0;
    assert Repeat("0", 1) == "0";
    assert NatToString(45) == NatToString(4) + "5";
  }

  /* ---------------------------------------------------------------------------------------
   * The log file name
   * ------------------------------------------------------------------------------------- */

  /**
   * The seven readings of `DateTime.Now` that name a log file. Each property is read from the
   * clock separately, so the fields need not come from the same instant.
   */
  datatype Timestamp = Timestamp(year: int, month: int, day: int, hour: int, minute: int, second: int, ticks: int)

  /** The ranges `DateTime` keeps its fields in. */
  predicate ValidTimestamp(t: Timestamp) {
    1 <= t.year <= 9999 && 1 <= t.month <= 12 && 1 <= t.day <= 31 &&
    0 <= t.hour < 24 && 0 <= t.minute < 60 && 0 <= t.second < 60 && t.ticks >= 0
  }

  const LogPrefix: string := "WebserviceHandler-log-"

  function Direction(isRequest: bool): string {
    if isRequest then "request-" else "response-"
  }

  /** `functionName ?? "unknown"`. */
  function FunctionLabel(functionName: Option<string>): string {
    match functionName
    case None => "unknown"
    case Some(f) => f
  }

  /** The file name `logXML` writes to, below the log directory. */
  function LogFileName(functionName: Option<string>, isRequest: bool, t: Timestamp): string {
    LogPrefix + Direction(isRequest) + FunctionLabel(functionName) + "-" +
    IntToString(t.year) + "-" + Pad2(t.month) + "-" + Pad2(t.day) + "-" + Pad2(t.hour) + "-" +
    Pad2(t.minute) + "-" + Pad2(t.second) + "-" + IntToString(t.ticks) + ".xml"
  }

  lemma SplitEqual(a1: string, s1: string, a2: string, s2: string)
    requires a1 + s1 == a2 + s2 && |s1| == |s2|
    ensures a1 == a2 && s1 == s2
  {
    assert a1 == (a1 + s1)[..|a1|];
    assert s1 == (a1 + s1)[|a1|..];
  }

  /** Two strings ending in a dash and a run of digits split at the same dash. */
  lemma DashDigits(a1: string, x1: string, a2: string, x2: string)
    requires a1 + "-" + x1 == a2 + "-" + x2
    requires IsDigits(x1) && IsDigits(x2)
    ensures a1 == a2 && x1 == x2
  {
    var s := a1 + "-" + x1;
    assert s[|s| - |x1| - 1] == '-';
    assert s[|s| - |x2| - 1] == '-';
    if |x1| < |x2| {
      // the dash before x1 would be a digit of x2
      assert false;
    } else if |x2| < |x1| {
      // the dash before x2 would be a digit of x1
      assert false;
    }
    SplitEqual(a1 + "-", x1, a2 + "-", x2);
    SplitEqual(a1, "-", a2, "-");
  }

  /** Two strings ending in a dash and a piece of the same length split at that dash. */
  lemma DashFixed(a1: string, x1: string, a2: string, x2: string)
    requires a1 + "-" + x1 == a2 + "-" + x2 && |x1| == |x2|
    ensures a1 == a2 && x1 == x2
  {
    SplitEqual(a1 + "-", x1, a2 + "-", x2);
    SplitEqual(a1, "-", a2, "-");
  }

  /** The characters of the log file name that come from its leading part. */
  lemma NameStartsWith(head: string, fname: string, year: string, month: string, day: string,
                       hour: string, minute: string, second: string, ticks: string, i: int)
    requires 0 <= i < |head|
    ensures (head + fname + "-" + year + "-" + month + "-" + day + "-" + hour + "-" +
             minute + "-" + second + "-" + ticks + ".xml")[i] == head[i]
  {
  }

  /** A request log and a response log never have the same name. */
  lemma RequestAndResponseNamesDiffer(f: Option<string>, t1: Timestamp, g: Option<string>, t2: Timestamp)
    ensures LogFileName(f, true, t1) != LogFileName(g, false, t2)
  {
    NameStartsWith(LogPrefix + Direction(true), FunctionLabel(f), IntToString(t1.year), Pad2(t1.month),
      Pad2(t1.day), Pad2(t1.hour), Pad2(t1.minute), Pad2(t1.second), IntToString(t1.ticks), 24);
    NameStartsWith(LogPrefix + Direction(false), FunctionLabel(g), IntToString(t2.year), Pad2(t2.month),
      Pad2(t2.day), Pad2(t2.hour), Pad2(t2.minute), Pad2(t2.second), IntToString(t2.ticks), 24);
    DirectionChar(true);
    DirectionChar(false);
  }

  /** The character that tells a request log from a response log. */
  lemma DirectionChar(isRequest: bool)
    ensures |LogPrefix + Direction(isRequest)| > 24
    ensures (LogPrefix + Direction(isRequest))[24] == if isRequest then 'q' else 's'
  {
  }

  /** A null function name and the name `unknown` give the same file name. */
  lemma NullNameIsUnknown(isRequest: bool, t: Timestamp)
    ensures LogFileName(None, isRequest, t) == LogFileName(Some("unknown"), isRequest, t)
  {
  }

  /**
   * For timestamps `DateTime` can produce, the name determines the direction, the function
   * label (`functionName ?? "unknown"`) and all seven clock readings: logs taken at different
   * times never share a file.
   */
  lemma LogFileNameInjective(f1: Option<string>, d1: bool, t1: Timestamp, f2: Option<string>, d2: bool, t2: Timestamp)
    requires ValidTimestamp(t1) && ValidTimestamp(t2)
    requires LogFileName(f1, d1, t1) == LogFileName(f2, d2, t2)
    ensures d1 == d2 && FunctionLabel(f1) == FunctionLabel(f2) && t1 == t2
  {
    if d1 != d2 {
      if d1 {
        RequestAndResponseNamesDiffer(f1, t1, f2, t2);
      } else {
        RequestAndResponseNamesDiffer(f2, t2, f1, t1);
      }
    }
    PadTwoDigits(t1.month); PadTwoDigits(t1.day); PadTwoDigits(t1.hour);
    PadTwoDigits(t1.minute); PadTwoDigits(t1.second);
    PadTwoDigits(t2.month); PadTwoDigits(t2.day); PadTwoDigits(t2.hour);
    PadTwoDigits(t2.minute); PadTwoDigits(t2.second);
    ParseNatToString(t1.year); ParseNatToString(t2.year);
    ParseNatToString(t1.ticks); ParseNatToString(t2.ticks);

    var p1 := LogPrefix + Direction(d1) + FunctionLabel(f1);
    var p2 := LogPrefix + Direction(d2) + FunctionLabel(f2);
    var y1 := p1 + "-" + IntToString(t1.year);
    var y2 := p2 + "-" + IntToString(t2.year);
    var mo1 := y1 + "-" + Pad2(t1.month);
    var mo2 := y2 + "-" + Pad2(t2.month);
    var dd1 := mo1 + "-" + Pad2(t1.day);
    var dd2 := mo2 + "-" + Pad2(t2.day);
    var h1 := dd1 + "-" + Pad2(t1.hour);
    var h2 := dd2 + "-" + Pad2(t2.hour);
    var mi1 := h1 + "-" + Pad2(t1.minute);
    var mi2 := h2 + "-" + Pad2(t2.minute);
    var s1 := mi1 + "-" + Pad2(t1.second);
    var s2 := mi2 + "-" + Pad2(t2.second);

    SplitEqual(s1 + "-" + IntToString(t1.ticks), ".xml", s2 + "-" + IntToString(t2.ticks), ".xml");
    DashDigits(s1, IntToString(t1.ticks), s2, IntToString(t2.ticks));
    DashFixed(mi1, Pad2(t1.second), mi2, Pad2(t2.second));
    DashFixed(h1, Pad2(t1.minute), h2, Pad2(t2.minute));
    DashFixed(dd1, Pad2(t1.hour), dd2, Pad2(t2.hour));
    DashFixed(mo1, Pad2(t1.day), mo2, Pad2(t2.day));
    DashFixed(y1, Pad2(t1.month), y2, Pad2(t2.month));
    DashDigits(p1, IntToString(t1.year), p2, IntToString(t2.year));
    assert FunctionLabel(f1) == p1[|LogPrefix + Direction(d1)|..];
    assert FunctionLabel(f2) == p2[|LogPrefix + Direction(d2)|..];
  }

  /* ---------------------------------------------------------------------------------------
   * The handler
   * ------------------------------------------------------------------------------------- */

  /** A file written by `File.WriteAllText(Path.Combine(directory, name), content)`. */
  datatype LogFile = LogFile(directory: string, name: string, content: string)

  class WebserviceHandler {
    /** Where to put the log files; None is null, which turns logging off. */
    var logPath: Option<string>
    /** The log files written so far, oldest first. */
    var logFiles: seq<LogFile>

    constructor (logPath: Option<string>)
      ensures this.logPath == logPath && logFiles == []
    {
      this.logPath := logPath;
      logFiles := [];
    }

    /**
     * pad: the invariant decimal string of `number`, returned as it is when it is at least
     * `length` long, otherwise padded one copy of `padding` at a time until it is. The loop
     * only ends when `padding` is not empty.
     */
    method Pad(number: int, length: int := 2, padding: string := "0", fromFront: bool := true)
      returns (output: string)
      requires |padding| > 0 || |IntToString(number)| >= length
      ensures output == PadResult(IntToString(number), length, padding, fromFront)
    {
      output := IntToString(number);
      if |output| >= length {
        return;
      }
      ghost var digits := output;
      ghost var k: nat := 0;
      while |output| < length
        invariant output == if fromFront then Repeat(padding, k) + digits else digits + Repeat(padding, k)
        invariant Copies(|digits|, length, |padding|) == k + Copies(|output|, length, |padding|)
        decreases length - |output|
      {
        if fromFront {
          AppendAssoc(padding, Repeat(padding, k), digits);
          RepeatPrepend(padding, k);
          output := padding + output;
        } else {
          AppendAssoc(digits, Repeat(padding, k), padding);
          output := output + padding;
        }
        k := k + 1;
      }
    }

    /** logXML: writes `xml` to a file in the log directory named after the call and the time. */
    method LogXml(xml: string, functionName: Option<string>, isRequest: bool, now: Timestamp)
      requires logPath.Some?
      modifies this`logFiles
      ensures logFiles == old(logFiles) + [LogFile(logPath.value, LogFileName(functionName, isRequest, now), xml)]
    {
      var month := Pad(now.month);
      var day := Pad(now.day);
      var hour := Pad(now.hour);
      var minute := Pad(now.minute);
      var second := Pad(now.second);
      var filename :=
        "WebserviceHandler-log-" +
        (if isRequest then "request-" else "response-") +
        FunctionLabel(functionName) + "-" +
        IntToString(now.year) + "-" +
        month + "-" +
        day + "-" +
        hour + "-" +
        minute + "-" +
        second + "-" +
        IntToString(now.ticks) +
        ".xml";
      logFiles := logFiles + [LogFile(logPath.value, filename, xml)];
    }

    /**
     * Call, without the transport: `reply` is the response document the service sent back.
     * With a log directory set, the request is logged first and the response second.
     */
    method Call(xml: string, functionName: Option<string>, reply: string, requestTime: Timestamp, responseTime: Timestamp)
      returns (response: string)
      modifies this`logFiles
      ensures response == reply
      ensures logPath.None? ==> logFiles == old(logFiles)
      ensures logPath.Some? ==> logFiles == old(logFiles) + [
        LogFile(logPath.value, LogFileName(functionName, true, requestTime), xml),
        LogFile(logPath.value, LogFileName(functionName, false, responseTime), reply)]
    {
      if logPath.Some? {
        LogXml(xml, functionName, true, requestTime);
      }
      response := reply;
      if logPath.Some? {
        LogXml(response, functionName, false, responseTime);
      }
    }
  }
}
