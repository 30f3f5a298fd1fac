/**
  The request log: writeLog renders its first three arguments and a
  timestamp as one comma-separated line ending in a newline, which is then
  appended to log.txt. The clock reading (`new Date().toLocaleString()`) is a
  parameter; the append itself is I/O and not part of this model.
*/
module RequestLog {

  /** An argument the handlers pass to writeLog: a string literal such as
      "create", an HTTP status code, or a caught error object. */
  datatype LogArg =
    | Text(s: string)
    | Code(n: int)
    | Thrown(name: string, message: string)

  /** The character of a decimal digit. */
  function Digit(d: nat): (c: char)
    requires d < 10
    ensures '0' <= c <= '9' && c as int - '0' as int == d
  {
    ('0' as int + d) as char
  }

  /** The value of a string of decimal digits, most significant first. */
  function DigitsValue(s: string): nat
    requires forall i :: 0 <= i < |s| ==> '0' <= s[i] <= '9'
  {
    if s == [] then 0 else DigitsValue(s[..|s| - 1]) * 10 + (s[|s| - 1] as int - '0' as int)
  }

  /** The shortest decimal spelling of a natural number, as JavaScript writes
      an integer below 2^53 (every status code the handlers log) inside a
      template literal. */
  function Decimal(n: nat): (digits: string)
    ensures |digits| > 0
    ensures forall i :: 0 <= i < |digits| ==> '0' <= digits[i] <= '9'
    ensures |digits| > 1 ==> digits[0] != '0'
  {
    if n < 10 then [Digit(n)] else Decimal(n / 10) + [Digit(n % 10)]
  }

  /** Reading the digits back gives the number: Decimal loses nothing. */
  lemma {:induction false} DecimalRoundTrip(n: nat)
    ensures DigitsValue(Decimal(n)) == n
  {
    if n >= 10 {
      var prefix := Decimal(n / 10);
      assert (prefix + [Digit(n % 10)])[..|prefix|] == prefix;
      DecimalRoundTrip(n / 10);
    }
  }

  /** How a template literal turns an argument into text; an error object
      goes through Error.prototype.toString, which leaves out an empty name
      or an empty message together with the ": " between them. */
  function Render(arg: LogArg): (text: string)
    ensures arg.Text? ==> text == arg.s
    ensures arg.Code? ==> forall i :: 0 <= i < |text| ==> text[i] == '-' || '0' <= text[i] <= '9'
    ensures arg.Code? ==> (|text| > 0 && text[0] == '-' <==> arg.n < 0)
    ensures arg.Thrown? ==>
      var both := arg.name != "" && arg.message != "";
      && |text| == |arg.name| + (if both then 2 else 0) + |arg.message|
      && text[..|arg.name|] == arg.name
      && (both ==> text[|arg.name|..|arg.name| + 2] == ": ")
      && text[|text| - |arg.message|..] == arg.message
  {
    match arg
    case Text(s) => s
    case Code(n) => if n < 0 then "-" + Decimal(-n) else Decimal(n)
    case Thrown(name, message) =>
      if name == "" then message
      else if message == "" then name
      else name + ": " + message
  }

  /** An integer renders as an optional minus sign followed by the shortest
      decimal digits of its magnitude: at least one digit, no leading zero,
      and they spell the magnitude. */
  lemma RenderCodeValue(n: int)
    ensures var text := Render(Code(n));
            var digits := if n < 0 then text[1..] else text;
            && |digits| > 0
            && (|digits| > 1 ==> digits[0] != '0')
            && (forall i :: 0 <= i < |digits| ==> '0' <= digits[i] <= '9')
            && DigitsValue(digits) == (if n < 0 then -n else n)
  {
    DecimalRoundTrip(if n < 0 then -n else n);
    if n < 0 {
      assert Render(Code(n))[1..] == Decimal(-n);
    }
  }

  /** A status code renders as its digits: no comma, no line break. */
  lemma RenderCodeIsClean(n: int)
    ensures ',' !in Render(Code(n)) && '\n' !in Render(Code(n))
  {
    var digits := Decimal(if n < 0 then -n else n);
    assert ',' !in digits && '\n' !in digits;
  }

  /** `${logInfo[k]}`: an argument that was not passed renders as "undefined". */
  function Field(args: seq<LogArg>, k: nat): (field: string)
    ensures k < |args| ==> field == Render(args[k])
    ensures k >= |args| ==> field == "undefined"
  {
    if k < |args| then Render(args[k]) else "undefined"
  }

  /** `.replace(",", "")`: a string pattern replaces its first occurrence only. */
  function StripFirstComma(s: string): (r: string)
    ensures |r| == if ',' in s then |s| - 1 else |s|
  {
    if s == [] then []
    else if s[0] == ',' then s[1..]
    else assert s == [s[0]] + s[1..]; [s[0]] + StripFirstComma(s[1..])
  }

  /** Exactly one comma is removed when there is one, and nothing else. */
  lemma {:induction false} StripFirstCommaRemovesOne(s: string)
    ensures multiset(StripFirstComma(s)) == multiset(s) - multiset{','}
  {
    if s != [] {
      assert s == [s[0]] + s[1..];
      if s[0] != ',' {
        StripFirstCommaRemovesOne(s[1..]);
      }
    }
  }

  /** The comma removed is the first one; everything around it stays in place. */
  lemma {:induction false} StripFirstCommaAt(s: string, i: nat)
    requires i < |s| && s[i] == ','
    requires forall j :: 0 <= j < i ==> s[j] != ','
    ensures StripFirstComma(s) == s[..i] + s[i + 1..]
  {
    if i > 0 {
      var tail := s[1..];
      assert forall j :: 0 <= j < |tail| ==> tail[j] == s[j + 1];
      StripFirstCommaAt(tail, i - 1);
      assert StripFirstComma(s) == [s[0]] + (tail[..i - 1] + tail[i..]);
      assert s[..i] == [s[0]] + tail[..i - 1];
      assert s[i + 1..] == tail[i..];
    } else {
      assert s[..i] + s[i + 1..] == s[1..];
    }
  }

  /** A string without commas passes through unchanged. */
  lemma {:induction false} StripFirstCommaNoComma(s: string)
    requires forall i :: 0 <= i < |s| ==> s[i] != ','
    ensures StripFirstComma(s) == s
  {
    if s != [] {
      assert forall i :: 0 <= i < |s[1..]| ==> s[1..][i] == s[i + 1];
      StripFirstCommaNoComma(s[1..]);
      assert StripFirstComma(s) == [s[0]] + s[1..];
      assert [s[0]] + s[1..] == s;
    }
  }

  /** writeLog's line: the first three arguments and the timestamp, joined by
      commas and ended by a newline. */
  function LogLine(args: seq<LogArg>, clock: string): (line: string)
    ensures |line| > 0 && line[|line| - 1] == '\n'
  {
    Field(args, 0) + "," + Field(args, 1) + "," + Field(args, 2) + "," + StripFirstComma(clock) + "\n"
  }

  /** Only the first three arguments reach the line. */
  lemma LogLineUsesFirstThree(args: seq<LogArg>, others: seq<LogArg>, clock: string)
    requires |args| >= 3 && |others| >= 3 && args[..3] == others[..3]
    ensures LogLine(args, clock) == LogLine(others, clock)
  {
    assert args[0] == args[..3][0] && args[1] == args[..3][1] && args[2] == args[..3][2];
    assert others[0] == others[..3][0] && others[1] == others[..3][1] && others[2] == others[..3][2];
  }

  /** The pieces of a string between the occurrences of a separator, as
      JavaScript's `split` returns them. */
  function Split(s: string, sep: char): (parts: seq<string>)
    ensures |parts| > 0
  {
    if s == [] then [""]
    else
      var rest := Split(s[1..], sep);
      if s[0] == sep then [""] + rest else [[s[0]] + rest[0]] + rest[1..]
  }

  lemma {:induction false} SplitWithoutSep(s: string, sep: char)
    requires sep !in s
    ensures Split(s, sep) == [s]
  {
    if s != [] {
      SplitWithoutSep(s[1..], sep);
      assert s == [s[0]] + s[1..];
    }
  }

  lemma {:induction false} SplitAtSep(a: string, b: string, sep: char)
    requires sep !in a
    ensures Split(a + [sep] + b, sep) == [a] + Split(b, sep)
  {
    if a == [] {
      assert a + [sep] + b == [sep] + b;
      assert ([sep] + b)[1..] == b;
    } else {
      var s := a + [sep] + b;
      assert s[0] == a[0] && s[1..] == a[1..] + [sep] + b;
      SplitAtSep(a[1..], b, sep);
      assert [a[0]] + a[1..] == a;
    }
  }

  /** Four fields free of commas and line breaks, joined by commas, split back
      into those fields and hold no line break. */
  lemma SplitFourFields(f0: string, f1: string, f2: string, f3: string)
    requires ',' !in f0 && ',' !in f1 && ',' !in f2 && ',' !in f3
    requires '\n' !in f0 && '\n' !in f1 && '\n' !in f2 && '\n' !in f3
    ensures Split(f0 + "," + f1 + "," + f2 + "," + f3, ',') == [f0, f1, f2, f3]
    ensures '\n' !in f0 + "," + f1 + "," + f2 + "," + f3
  {
    SplitWithoutSep(f3, ',');
    SplitAtSep(f2, f3, ',');
    SplitAtSep(f1, f2 + [','] + f3, ',');
    SplitAtSep(f0, f1 + [','] + (f2 + [','] + f3), ',');
    assert f0 + "," + f1 + "," + f2 + "," + f3 == f0 + [','] + (f1 + [','] + (f2 + [','] + f3));
  }

  /** A clock reading with at most one comma loses it; no other character is
      added or removed. */
  lemma StripFirstCommaLeavesNoComma(clock: string)
    requires multiset(clock)[','] <= 1
    ensures ',' !in StripFirstComma(clock)
    ensures forall c :: c != ',' ==> (c in StripFirstComma(clock) <==> c in clock)
  {
    var now := StripFirstComma(clock);
    StripFirstCommaRemovesOne(clock);
    assert multiset(now)[','] == 0;
    forall c | c != ','
      ensures c in now <==> c in clock
    {
      assert multiset(now)[c] == multiset(clock)[c];
    }
  }

  /** A log line reads back as its four fields when the arguments hold no
      comma and the clock reading at most one (the one the line drops), and
      its only line break is the final one. */
  lemma LogLineFields(args: seq<LogArg>, clock: string)
    requires forall k :: 0 <= k < 3 ==> ',' !in Field(args, k) && '\n' !in Field(args, k)
    requires multiset(clock)[','] <= 1 && '\n' !in clock
    ensures var line := LogLine(args, clock);
            && Split(line[..|line| - 1], ',') == [Field(args, 0), Field(args, 1), Field(args, 2), StripFirstComma(clock)]
            && '\n' !in line[..|line| - 1]
  {
    var f0, f1, f2 := Field(args, 0), Field(args, 1), Field(args, 2);
    assert ',' !in f0 && '\n' !in f0 && ',' !in f1 && '\n' !in f1 && ',' !in f2 && '\n' !in f2 by {
      assert 0 < 3 && 1 < 3 && 2 < 3;
    }
    var now := StripFirstComma(clock);
    StripFirstCommaLeavesNoComma(clock);
    var body := f0 + "," + f1 + "," + f2 + "," + now;
    SplitFourFields(f0, f1, f2, now);
    assert LogLine(args, clock)[..|body|] == body;
  }

  /** The line GET / writes: status 201, although its response goes out with
      Express's default status 200. */
  lemma ReadLogLine(clock: string)
    ensures LogLine([Text("read"), Text("get"), Code(201)], clock) == "read,get,201," + StripFirstComma(clock) + "\n"
  {
    var args := [Text("read"), Text("get"), Code(201)];
    StatusDigits();
    assert Field(args, 0) == "read" && Field(args, 1) == "get" && Field(args, 2) == "201";
    assert "read" + "," + "get" + "," + "201" + "," == "read,get,201,";
  }

  /** The line POST / writes. */
  lemma CreateLogLine(clock: string)
    ensures LogLine([Text("create"), Text("post"), Code(201)], clock) == "create,post,201," + StripFirstComma(clock) + "\n"
  {
    var args := [Text("create"), Text("post"), Code(201)];
    StatusDigits();
    assert Field(args, 0) == "create" && Field(args, 1) == "post" && Field(args, 2) == "201";
    assert "create" + "," + "post" + "," + "201" + "," == "create,post,201,";
  }

  /** The line PUT /:id writes. */
  lemma UpdateLogLine(clock: string)
    ensures LogLine([Text("update"), Text("put"), Code(200)], clock) == "update,put,200," + StripFirstComma(clock) + "\n"
  {
    var args := [Text("update"), Text("put"), Code(200)];
    StatusDigits();
    assert Field(args, 0) == "update" && Field(args, 1) == "put" && Field(args, 2) == "200";
    assert "update" + "," + "put" + "," + "200" + "," == "update,put,200,";
  }

  /** The line DELETE /:id writes. */
  lemma DeleteLogLine(clock: string)
    ensures LogLine([Text("delete"), Text("delete"), Code(204)], clock) == "delete,delete,204," + StripFirstComma(clock) + "\n"
  {
    var args := [Text("delete"), Text("delete"), Code(204)];
    StatusDigits();
    assert Field(args, 0) == "delete" && Field(args, 1) == "delete" && Field(args, 2) == "204";
    assert "delete" + "," + "delete" + "," + "204" + "," == "delete,delete,204,";
  }

  /** The line a failing handler writes. The error's text is the third field
      only when it holds no comma (see ErrorLogLineFields); each comma in the
      name or the message adds a field. */
  lemma ErrorLogLine(clock: string, name: string, message: string)
    requires name != "" && message != ""
    ensures LogLine([Text("ERROR"), Code(500), Thrown(name, message)], clock)
            == "ERROR,500," + name + ": " + message + "," + StripFirstComma(clock) + "\n"
  {
    var args := [Text("ERROR"), Code(500), Thrown(name, message)];
    var error := name + ": " + message;
    var now := StripFirstComma(clock);
    assert Field(args, 0) == "ERROR";
    assert Field(args, 1) == "500" by { StatusDigits(); }
    assert Field(args, 2) == error;
    assert LogLine(args, clock) == "ERROR" + "," + "500" + "," + error + "," + now + "\n";
    assert "ERROR" + "," + "500" + "," == "ERROR,500,";
  }

  /** A reader of log.txt gets a failing handler's line back as "ERROR", "500",
      the error's text and the edited timestamp, when the error's name and
      message hold no comma and no line break. */
  lemma ErrorLogLineFields(clock: string, name: string, message: string)
    requires ',' !in name && '\n' !in name && ',' !in message && '\n' !in message
    requires multiset(clock)[','] <= 1 && '\n' !in clock
    ensures var line := LogLine([Text("ERROR"), Code(500), Thrown(name, message)], clock);
            && Split(line[..|line| - 1], ',') == ["ERROR", "500", Render(Thrown(name, message)), StripFirstComma(clock)]
            && '\n' !in line[..|line| - 1]
  {
    var args := [Text("ERROR"), Code(500), Thrown(name, message)];
    var error := Render(Thrown(name, message));
    assert ',' !in error && '\n' !in error;
    assert Field(args, 1) == "500" by { StatusDigits(); }
    assert Field(args, 0) == "ERROR" && Field(args, 2) == error;
    LogLineFields(args, clock);
  }

  /** The digits of the status codes the handlers log. */
  lemma StatusDigits()
    ensures Render(Code(200)) == "200" && Render(Code(201)) == "201" && Render(Code(204)) == "204"
    ensures Render(Code(500)) == "500"
  {
    assert Decimal(2) == "2";
    assert Decimal(20) == "20";
    assert Decimal(5) == "5";
    assert Decimal(50) == "50";
  }

  /** What a reader of log.txt gets back from the line a successful handler
      writes: its operation, its verb, its status code and the edited
      timestamp, as four comma-separated fields on one line. */
  lemma HandlerLogLineFields(op: string, verb: string, status: int, clock: string)
    requires ',' !in op && '\n' !in op && ',' !in verb && '\n' !in verb
    requires multiset(clock)[','] <= 1 && '\n' !in clock
    ensures var line := LogLine([Text(op), Text(verb), Code(status)], clock);
            && Split(line[..|line| - 1], ',') == [op, verb, Render(Code(status)), StripFirstComma(clock)]
            && '\n' !in line[..|line| - 1]
  {
    var args := [Text(op), Text(verb), Code(status)];
    RenderCodeIsClean(status);
    assert Field(args, 0) == op && Field(args, 1) == verb && Field(args, 2) == Render(Code(status));
    LogLineFields(args, clock);
  }
}
