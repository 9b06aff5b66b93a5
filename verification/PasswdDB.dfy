/** The passwd database (src/PasswdDB.cpp): reading, writing, and decimal ids. */
module PasswdDB {
  import opened Wrappers
  import opened Text

  // ----- Numbers -----

  /** uid_t and gid_t */
  type Id = n: nat | n < 0x1_0000_0000

  const UINT_RANGE: nat := 0x1_0000_0000
  const ULONG_RANGE: nat := 0x1_0000_0000_0000_0000

  predicate IsDigit(c: char) {
    '0' <= c <= '9'
  }

  function DigitOf(d: nat): (c: char)
    requires d < 10
    ensures IsDigit(c)
  {
    ('0' as int + d) as char
  }

  function ValueOfDigit(c: char): nat
    requires IsDigit(c)
  {
    c as int - '0' as int
  }

  predicate AllDigits(s: string) {
    forall i :: 0 <= i < |s| ==> IsDigit(s[i])
  }

  /** `os << id` */
  function Decimal(n: nat): (s: string)
    ensures s != "" && AllDigits(s)
  {
    if n < 10 then [DigitOf(n)] else Decimal(n / 10) + [DigitOf(n % 10)]
  }

  function Value(digits: string): nat
    requires AllDigits(digits)
  {
    if digits == "" then 0 else 10 * Value(digits[..|digits| - 1]) + ValueOfDigit(digits[|digits| - 1])
  }

  lemma {:induction false} ValueOfDecimal(n: nat)
    ensures Value(Decimal(n)) == n
  {
    var s := Decimal(n);
    if n < 10 {
      assert s[..|s| - 1] == "";
    } else {
      ValueOfDecimal(n / 10);
      assert s[..|s| - 1] == Decimal(n / 10);
    }
  }

  predicate IsSpace(c: char) {
    c == ' ' || ('\t' <= c <= '\r')
  }

  function SkipSpace(s: string): string {
    if s != "" && IsSpace(s[0]) then SkipSpace(s[1..]) else s
  }

  /** The longest prefix of digits. */
  function LeadingDigits(s: string): (d: string)
    ensures AllDigits(d)
  {
    if s != "" && IsDigit(s[0]) then [s[0]] + LeadingDigits(s[1..]) else ""
  }

  /**
   * `std::stoul`: white space, a sign, digits, and anything behind them.  Error stands for
   * invalid_argument and out_of_range.
   */
  function Stoul(s: string): Result<nat> {
    StoulSigned(SkipSpace(s))
  }

  function StoulSigned(s: string): Result<nat> {
    if s != "" && s[0] == '-' then NumberOf(true, LeadingDigits(s[1..]))
    else if s != "" && s[0] == '+' then NumberOf(false, LeadingDigits(s[1..]))
    else NumberOf(false, LeadingDigits(s))
  }

  /** A number with a minus sign wraps around. */
  function NumberOf(minus: bool, digits: string): Result<nat>
    requires AllDigits(digits)
  {
    if digits == "" || Value(digits) >= ULONG_RANGE then Error
    else if minus then Ok((ULONG_RANGE - Value(digits)) % ULONG_RANGE)
    else Ok(Value(digits))
  }

  /** The conversion from unsigned long to uid_t drops the upper half. */
  function ToId(n: nat): Id {
    n % UINT_RANGE
  }

  predicate AllSpace(s: string) {
    forall i :: 0 <= i < |s| ==> IsSpace(s[i])
  }

  lemma {:induction false} SpaceIsSkipped(space: string, rest: string)
    requires AllSpace(space)
    requires rest == "" || !IsSpace(rest[0])
    ensures SkipSpace(space + rest) == rest
    decreases |space|
  {
    if space == "" {
      assert space + rest == rest;
    } else {
      assert (space + rest)[1..] == space[1..] + rest;
      SpaceIsSkipped(space[1..], rest);
    }
  }

  lemma {:induction false} DigitsEnd(digits: string, tail: string)
    requires AllDigits(digits) && (tail == "" || !IsDigit(tail[0]))
    ensures LeadingDigits(digits + tail) == digits
    decreases |digits|
  {
    if digits == "" {
      assert digits + tail == tail;
    } else {
      assert (digits + tail)[1..] == digits[1..] + tail;
      DigitsEnd(digits[1..], tail);
      assert digits == [digits[0]] + digits[1..];
    }
  }

  predicate IsSign(sign: string) {
    sign == "" || sign == "+" || sign == "-"
  }

  /** White space is what isspace(3) says in the C locale. */
  lemma SpacesAre(c: char)
    ensures IsSpace(c) <==> c in {' ', '\t', '\n', '\U{000B}', '\U{000C}', '\r'}
  {
  }

  /** What every text looks like to `stoul`: white space, a sign, digits, each as far as it goes, and the rest. */
  predicate NumberField(space: string, sign: string, digits: string, tail: string) {
    && AllSpace(space) && IsSign(sign) && AllDigits(digits)
    && (tail != "" ==>
          && !IsDigit(tail[0])
          && (sign == "" && digits == "" ==> !IsSpace(tail[0]) && tail[0] != '+' && tail[0] != '-'))
  }

  lemma SignIsRead(sign: string, digits: string, tail: string)
    requires NumberField("", sign, digits, tail)
    ensures StoulSigned(sign + (digits + tail)) == NumberOf(sign == "-", digits)
  {
    var number := digits + tail;
    DigitsEnd(digits, tail);
    assert number != "" ==> number[0] == if digits == "" then tail[0] else digits[0];
    if sign == "" {
      assert sign + number == number;
    } else {
      assert (sign + number)[1..] == number;
    }
  }

  /** A number field throws exactly if it has no digits or they need more than 64 bits; a minus sign wraps around. */
  lemma {:induction false} StoulReads(space: string, sign: string, digits: string, tail: string)
    requires NumberField(space, sign, digits, tail)
    ensures Stoul(space + (sign + (digits + tail))) ==
            if digits == "" || Value(digits) >= 0x1_0000_0000_0000_0000 then Error
            else if sign == "-" && Value(digits) > 0 then Ok(0x1_0000_0000_0000_0000 - Value(digits))
            else Ok(Value(digits))
  {
    var body := sign + (digits + tail);
    assert body != "" ==>
        body[0] == if sign != "" then sign[0] else if digits != "" then digits[0] else tail[0];
    SpaceIsSkipped(space, body);
    SignIsRead(sign, digits, tail);
  }

  lemma {:induction false} SpaceThenRest(s: string) returns (space: string, rest: string)
    ensures s == space + rest && AllSpace(space) && (rest != "" ==> !IsSpace(rest[0]))
  {
    if s != "" && IsSpace(s[0]) {
      space, rest := SpaceThenRest(s[1..]);
      assert s == [s[0]] + s[1..];
      space := [s[0]] + space;
    } else {
      space, rest := "", s;
    }
  }

  lemma {:induction false} DigitsThenRest(s: string) returns (digits: string, tail: string)
    ensures s == digits + tail && AllDigits(digits) && (tail != "" ==> !IsDigit(tail[0]))
  {
    if s != "" && IsDigit(s[0]) {
      digits, tail := DigitsThenRest(s[1..]);
      assert s == [s[0]] + s[1..];
      digits := [s[0]] + digits;
    } else {
      digits, tail := "", s;
    }
  }

  /** Every text is such a field, so that StoulReads covers them all. */
  lemma EveryFieldHasShape(s: string) returns (space: string, sign: string, digits: string, tail: string)
    ensures s == space + (sign + (digits + tail)) && NumberField(space, sign, digits, tail)
  {
    var body;
    space, body := SpaceThenRest(s);
    sign := if body != "" && (body[0] == '+' || body[0] == '-') then [body[0]] else "";
    assert body == sign + body[|sign|..];
    digits, tail := DigitsThenRest(body[|sign|..]);
    assert sign == "" && digits == "" ==> tail == body;
  }

  lemma StoulReadsDecimal(n: Id)
    ensures Stoul(Decimal(n)) == Ok(n)
  {
    StoulReads("", "", Decimal(n), "");
    ValueOfDecimal(n);
    assert "" + ("" + (Decimal(n) + "")) == Decimal(n);
  }

  // ----- Entries and lines -----

  datatype Entry = Entry(
    loginName: string, encryptedPassword: string, uid: Id, gid: Id,
    userNameOrCommentField: string, userHomeDirectory: string,
    userCommandInterpreter: Option<string>)

  /** `parseLine` */
  function ParseLine(line: string): Result<Entry> {
    EntryOf(Split(line, ':'))
  }

  function EntryOf(tokens: seq<string>): Result<Entry> {
    if |tokens| < 6 || |tokens| > 7 then Error
    else EntryFrom(tokens, Stoul(tokens[2]), Stoul(tokens[3]))
  }

  function EntryFrom(tokens: seq<string>, uid: Result<nat>, gid: Result<nat>): Result<Entry>
    requires 6 <= |tokens| <= 7
  {
    if uid.Error? || gid.Error? then Error
    else Ok(Entry(tokens[0], tokens[1], ToId(uid.value), ToId(gid.value), tokens[4], tokens[5],
                  if |tokens| > 6 && tokens[6] != "" then Some(tokens[6]) else None))
  }

  function FirstLine(text: string): string {
    text[..IndexOf(text, '\n')]
  }

  function AfterFirstLine(text: string): (rest: string)
    requires text != ""
    ensures |rest| < |text|
  {
    var end := IndexOf(text, '\n');
    if end == |text| then "" else text[end + 1..]
  }

  /** The lines that repeated `std::getline` delivers: no line after a final newline. */
  function Lines(text: string): seq<string>
    decreases |text|
  {
    if text == "" then [] else [FirstLine(text)] + Lines(AfterFirstLine(text))
  }

  /** All values, or Error if one line has none. */
  function ParseEach(lines: seq<string>, parse: string -> Result<Entry>): Result<seq<Entry>> {
    if lines == [] then Ok([])
    else Prepend(parse(lines[0]), ParseEach(lines[1..], parse))
  }

  function Prepend(first: Result<Entry>, rest: Result<seq<Entry>>): Result<seq<Entry>> {
    if first.Error? || rest.Error? then Error else Ok([first.value] + rest.value)
  }

  function ParseAll(lines: seq<string>): Result<seq<Entry>> {
    ParseEach(lines, line => ParseLine(line))
  }

  function ReadText(text: string): Result<seq<Entry>> {
    ParseAll(Lines(text))
  }

  function Fields(e: Entry): seq<string> {
    [e.loginName, e.encryptedPassword, Decimal(e.uid), Decimal(e.gid), e.userNameOrCommentField, e.userHomeDirectory,
     if e.userCommandInterpreter.Some? then e.userCommandInterpreter.value else ""]
  }

  function LineOf(e: Entry): string {
    Join(Fields(e), ':')
  }

  function WriteText(entries: seq<Entry>): string {
    if entries == [] then "" else LineOf(entries[0]) + "\n" + WriteText(entries[1..])
  }

  // ----- The source's loops -----

  class Stream {
    var text: string

    constructor (text: string)
      ensures this.text == text
    {
      this.text := text;
    }

    /** `std::getline` */
    method GetLine() returns (ok: bool, line: string)
      modifies this
      ensures ok <==> old(text) != ""
      ensures ok ==> line == FirstLine(old(text)) && text == AfterFirstLine(old(text))
      ensures !ok ==> text == ""
    {
      if text == "" {
        return false, "";
      }
      var end := IndexOf(text, '\n');
      ok, line := true, text[..end];
      text := if end == |text| then "" else text[end + 1..];
    }
  }

  function After(read: seq<Entry>, rest: Result<seq<Entry>>): Result<seq<Entry>> {
    if rest.Error? then Error else Ok(read + rest.value)
  }

  /** The entries before the first line that has none. */
  function Accepted(lines: seq<string>, parse: string -> Result<Entry>): seq<Entry> {
    if lines == [] || parse(lines[0]).Error? then []
    else [parse(lines[0]).value] + Accepted(lines[1..], parse)
  }

  /** What reading a text gives: the result, and the entries that were accepted before it stopped. */
  datatype Reading = Reading(result: Result<seq<Entry>>, accepted: seq<Entry>)

  /** The entries `read` so far and the lines of `text` make up the whole result. */
  ghost predicate ReadSoFar(whole: Reading, read: seq<Entry>, text: string, parse: string -> Result<Entry>) {
    && whole.result == After(read, ParseEach(Lines(text), parse))
    && whole.accepted == read + Accepted(Lines(text), parse)
  }

  lemma NextLine(whole: Reading, read: seq<Entry>, text: string, parse: string -> Result<Entry>)
    requires ReadSoFar(whole, read, text, parse) && text != ""
    ensures var entry := parse(FirstLine(text));
            if entry.Error? then whole == Reading(Error, read)
            else ReadSoFar(whole, read + [entry.value], AfterFirstLine(text), parse)
  {
    var line, rest := FirstLine(text), Lines(AfterFirstLine(text));
    NextOf(whole, read, line, rest, parse);
  }

  lemma NextOf(whole: Reading, read: seq<Entry>, line: string, rest: seq<string>, parse: string -> Result<Entry>)
    requires whole.result == After(read, ParseEach([line] + rest, parse))
    requires whole.accepted == read + Accepted([line] + rest, parse)
    ensures if parse(line).Error? then whole == Reading(Error, read)
            else
              && whole.result == After(read + [parse(line).value], ParseEach(rest, parse))
              && whole.accepted == read + [parse(line).value] + Accepted(rest, parse)
  {
    assert ([line] + rest)[1..] == rest;
    assert read + [] == read;
    if parse(line).Ok? {
      assert read + ([parse(line).value] + Accepted(rest, parse)) == read + [parse(line).value] + Accepted(rest, parse);
    }
    if parse(line).Ok? && ParseEach(rest, parse).Ok? {
      var e, es := parse(line).value, ParseEach(rest, parse).value;
      assert read + ([e] + es) == (read + [e]) + es;
    }
  }

  lemma ReadingStarts(text: string, parse: string -> Result<Entry>)
    ensures ReadSoFar(Reading(ParseEach(Lines(text), parse), Accepted(Lines(text), parse)), [], text, parse)
  {
    var whole := ParseEach(Lines(text), parse);
    assert whole.Ok? ==> [] + whole.value == whole.value;
    assert [] + Accepted(Lines(text), parse) == Accepted(Lines(text), parse);
  }

  lemma ReadingEnds(whole: Reading, read: seq<Entry>, parse: string -> Result<Entry>)
    requires ReadSoFar(whole, read, "", parse)
    ensures whole == Reading(Ok(read), read)
  {
    assert read + [] == read;
  }

  lemma {:induction false} WriteTextSnoc(entries: seq<Entry>, e: Entry)
    ensures WriteText(entries + [e]) == WriteText(entries) + LineOf(e) + "\n"
    decreases |entries|
  {
    var all := entries + [e];
    if entries == [] {
      assert all[1..] == [];
      assert LineOf(e) + "\n" + "" == "" + LineOf(e) + "\n";
    } else {
      assert all[1..] == entries[1..] + [e];
      WriteTextSnoc(entries[1..], e);
      var head, tail := LineOf(entries[0]) + "\n", WriteText(entries[1..]);
      assert head + (tail + LineOf(e) + "\n") == (head + tail) + LineOf(e) + "\n";
    }
  }

  class Database {
    var entries: seq<Entry>

    constructor ()
      ensures entries == []
    {
      entries := [];
    }

    method Read(input: Stream) returns (r: Result<()>)
      modifies this, input
      ensures r.Ok? <==> ReadText(old(input.text)).Ok?
      ensures r.Ok? ==> entries == old(entries) + ReadText(old(input.text)).value
      // after an exception the entries before the bad line are there
      ensures entries == old(entries) + Accepted(Lines(old(input.text)), line => ParseLine(line))
    {
      r := ReadWith(input, line => ParseLine(line));
    }

    /** One turn of the loop of `read`: the next line, if there is one, parsed. */
    method ReadLine(input: Stream, parse: string -> Result<Entry>, ghost whole: Reading, ghost read: seq<Entry>)
      returns (more: bool, entry: Result<Entry>)
      requires ReadSoFar(whole, read, input.text, parse)
      modifies input
      ensures !more ==> input.text == "" && ReadSoFar(whole, read, input.text, parse)
      ensures more && entry.Error? ==> whole == Reading(Error, read)
      ensures more && entry.Ok? ==>
                |input.text| < |old(input.text)| && ReadSoFar(whole, read + [entry.value], input.text, parse)
    {
      if input.text != "" {
        NextLine(whole, read, input.text, parse);
      }
      var line;
      more, line := input.GetLine();
      entry := if more then parse(line) else Error;
    }

    /** The loop of `read`, for any way to parse a line. */
    method ReadWith(input: Stream, parse: string -> Result<Entry>) returns (r: Result<()>)
      modifies this, input
      ensures r.Ok? <==> ParseEach(Lines(old(input.text)), parse).Ok?
      ensures r.Ok? ==> entries == old(entries) + ParseEach(Lines(old(input.text)), parse).value
      ensures entries == old(entries) + Accepted(Lines(old(input.text)), parse)
    {
      ghost var whole := Reading(ParseEach(Lines(input.text), parse), Accepted(Lines(input.text), parse));
      ghost var read: seq<Entry> := [];
      ReadingStarts(input.text, parse);
      var more := true;
      while more
        invariant ReadSoFar(whole, read, input.text, parse)
        invariant !more ==> input.text == ""
        invariant entries == old(entries) + read
        decreases more, |input.text|
      {
        var entry;
        more, entry := ReadLine(input, parse, whole, read);
        if more {
          if entry == Error {
            return Error;
          }
          read := read + [entry.value];
          entries := entries + [entry.value];
        }
      }
      ReadingEnds(whole, read, parse);
      r := Ok(());
    }

    method Write() returns (os: string)
      ensures os == WriteText(entries)
    {
      os := "";
      for k := 0 to |entries|
        invariant os == WriteText(entries[..k])
      {
        assert entries[..k + 1] == entries[..k] + [entries[k]];
        WriteTextSnoc(entries[..k], entries[k]);
        var line := EntryLine(entries[k]);
        os := os + line + "\n";
      }
      assert entries[..|entries|] == entries;
    }
  }

  /** The fields in the source's order, each behind its colon. */
  method EntryLine(entry: Entry) returns (os: string)
    ensures os == LineOf(entry)
    ensures os == entry.loginName + ":" + entry.encryptedPassword + ":" + Decimal(entry.uid) + ":" + Decimal(entry.gid)
                  + ":" + entry.userNameOrCommentField + ":" + entry.userHomeDirectory + ":"
                  + if entry.userCommandInterpreter.Some? then entry.userCommandInterpreter.value else ""
  {
    ghost var f := Fields(entry);
    os := entry.loginName;
    assert f[..1] == [f[0]];
    os := os + ":" + entry.encryptedPassword;
    FieldBehind(f, 1);
    os := os + ":" + Decimal(entry.uid);
    FieldBehind(f, 2);
    os := os + ":" + Decimal(entry.gid);
    FieldBehind(f, 3);
    os := os + ":" + entry.userNameOrCommentField;
    FieldBehind(f, 4);
    os := os + ":" + entry.userHomeDirectory;
    FieldBehind(f, 5);
    os := os + ":";
    if entry.userCommandInterpreter.Some? {
      os := os + entry.userCommandInterpreter.value;
    }
    FieldBehind(f, 6);
    assert f[..7] == f;
    assert entry.userCommandInterpreter.None? ==> Join(f[..6], ':') + ":" + "" == Join(f[..6], ':') + ":";
  }

  lemma FieldBehind(f: seq<string>, k: nat)
    requires 0 < k < |f|
    ensures Join(f[..k + 1], ':') == Join(f[..k], ':') + ":" + f[k]
  {
    assert f[..k + 1] == f[..k] + [f[k]];
    JoinSnoc(f[..k], f[k], ':');
  }

  // ----- Which texts read, and as what -----

  /** The parts between the colons of a line decide, and are the entry; every line is the join of such parts. */
  lemma ParseLineIff(fs: seq<string>)
    requires fs != [] && forall i, j :: 0 <= i < |fs| && 0 <= j < |fs[i]| ==> fs[i][j] != ':'
    ensures var r := ParseLine(Join(fs, ':'));
            && (r.Ok? <==> 6 <= |fs| <= 7 && Stoul(fs[2]).Ok? && Stoul(fs[3]).Ok?)
            && (r.Ok? ==>
                  && r.value.loginName == fs[0] && r.value.encryptedPassword == fs[1]
                  && r.value.uid == Stoul(fs[2]).value % 0x1_0000_0000
                  && r.value.gid == Stoul(fs[3]).value % 0x1_0000_0000
                  && r.value.userNameOrCommentField == fs[4] && r.value.userHomeDirectory == fs[5]
                  && r.value.userCommandInterpreter == if |fs| == 7 && fs[6] != "" then Some(fs[6]) else None)
  {
    assert forall i :: 0 <= i < |fs| ==> Free(fs[i], ':');
    SplitJoin(fs, ':');
    PartsGiveEntry(fs, Stoul(fs[if |fs| > 2 then 2 else 0]), Stoul(fs[if |fs| > 3 then 3 else 0]));
  }

  lemma PartsGiveEntry(fs: seq<string>, uid: Result<nat>, gid: Result<nat>)
    requires |fs| > 3 ==> uid == Stoul(fs[2]) && gid == Stoul(fs[3])
    ensures EntryOf(fs).Ok? <==> 6 <= |fs| <= 7 && uid.Ok? && gid.Ok?
    ensures EntryOf(fs).Ok? ==>
              EntryOf(fs).value ==
              Entry(fs[0], fs[1], uid.value % 0x1_0000_0000, gid.value % 0x1_0000_0000, fs[4], fs[5],
                    if |fs| == 7 && fs[6] != "" then Some(fs[6]) else None)
  {
  }

  lemma EveryLineIsJoined(line: string) returns (fs: seq<string>)
    ensures fs != [] && line == Join(fs, ':')
    ensures forall i, j :: 0 <= i < |fs| && 0 <= j < |fs[i]| ==> fs[i][j] != ':'
  {
    fs := Split(line, ':');
    JoinSplit(line, ':');
    SplitTokensFree(line, ':');
  }

  lemma SixJoined(fs: seq<string>)
    requires |fs| == 6
    ensures Join(fs, ':') == fs[0] + ":" + fs[1] + ":" + fs[2] + ":" + fs[3] + ":" + fs[4] + ":" + fs[5]
  {
    assert fs[..1] == [fs[0]] && fs[..6] == fs;
    FieldBehind(fs, 1);
    FieldBehind(fs, 2);
    FieldBehind(fs, 3);
    FieldBehind(fs, 4);
    FieldBehind(fs, 5);
  }

  lemma ParseJoined(fs: seq<string>)
    requires fs != [] && forall i :: 0 <= i < |fs| ==> Free(fs[i], ':')
    ensures ParseLine(Join(fs, ':')) == EntryOf(fs)
  {
    SplitJoin(fs, ':');
  }

  lemma SixGiveEntry(fs: seq<string>, uid: Id, gid: Id)
    requires |fs| == 6 && Stoul(fs[2]) == Ok(uid) && Stoul(fs[3]) == Ok(gid)
    ensures EntryOf(fs) == Ok(Entry(fs[0], fs[1], uid, gid, fs[4], fs[5], None))
  {
    PartsGiveEntry(fs, Ok(uid), Ok(gid));
  }

  /** Six fields are enough. */
  lemma SixFieldLine(login: string, password: string, uid: Id, gid: Id, comment: string, home: string)
    requires Free(login, ':') && Free(password, ':') && Free(comment, ':') && Free(home, ':')
    ensures ParseLine(login + ":" + password + ":" + Decimal(uid) + ":" + Decimal(gid) + ":" + comment + ":" + home)
         == Ok(Entry(login, password, uid, gid, comment, home, None))
  {
    var fs := [login, password, Decimal(uid), Decimal(gid), comment, home];
    DigitsAreClean(Decimal(uid));
    DigitsAreClean(Decimal(gid));
    StoulReadsDecimal(uid);
    StoulReadsDecimal(gid);
    SixJoined(fs);
    ParseJoined(fs);
    SixGiveEntry(fs, uid, gid);
  }

  /** Lines, each with its newline. */
  function Terminated(lines: seq<string>): string {
    if lines == [] then "" else lines[0] + "\n" + Terminated(lines[1..])
  }

  lemma LastLine(last: string)
    requires forall j :: 0 <= j < |last| ==> last[j] != '\n'
    ensures Lines(last) == if last == "" then [] else [last]
  {
    if last != "" {
      assert IndexOf(last, '\n') == |last|;
      assert last[..|last|] == last;
    }
  }

  lemma TerminatedFirst(lines: seq<string>, last: string)
    requires lines != []
    ensures Terminated(lines) + last == lines[0] + "\n" + (Terminated(lines[1..]) + last)
  {
    var rest := Terminated(lines[1..]);
    assert lines[0] + "\n" + rest + last == lines[0] + "\n" + (rest + last);
  }

  /** The lines of a text are what stands before each newline, and what follows the last one if it is not empty. */
  lemma {:induction false} LinesAre(lines: seq<string>, last: string)
    requires forall i, j :: 0 <= i < |lines| && 0 <= j < |lines[i]| ==> lines[i][j] != '\n'
    requires forall j :: 0 <= j < |last| ==> last[j] != '\n'
    ensures Lines(Terminated(lines) + last) == lines + if last == "" then [] else [last]
    decreases |lines|
  {
    var tail := if last == "" then [] else [last];
    if lines == [] {
      assert Terminated(lines) + last == last;
      LastLine(last);
      assert lines + tail == tail;
    } else {
      LinesAre(lines[1..], last);
      TerminatedFirst(lines, last);
      FirstOfLines(lines[0], Terminated(lines[1..]) + last);
      assert [lines[0]] + (lines[1..] + tail) == lines + tail;
    }
  }

  lemma {:induction false} EachParses(lines: seq<string>, parse: string -> Result<Entry>)
    ensures ParseEach(lines, parse).Ok? <==> forall i :: 0 <= i < |lines| ==> parse(lines[i]).Ok?
    ensures ParseEach(lines, parse).Ok? ==>
              && |ParseEach(lines, parse).value| == |lines|
              && forall i :: 0 <= i < |lines| ==> Ok(ParseEach(lines, parse).value[i]) == parse(lines[i])
    decreases |lines|
  {
    if lines != [] {
      EachParses(lines[1..], parse);
      forall i | 0 <= i < |lines| ensures parse(lines[i]) == parse(if i == 0 then lines[0] else lines[1..][i - 1]) {
      }
      if ParseEach(lines, parse).Ok? {
        forall i | 0 <= i < |lines| ensures parse(lines[i]).Ok? {
          assert i > 0 ==> lines[i] == lines[1..][i - 1];
        }
      } else if parse(lines[0]).Ok? {
        var i :| 0 <= i < |lines[1..]| && !parse(lines[1..][i]).Ok?;
        assert lines[i + 1] == lines[1..][i];
      }
    }
  }

  /** They are the entries of the lines up to the first that does not parse. */
  lemma {:induction false} AcceptedAre(lines: seq<string>, parse: string -> Result<Entry>)
    ensures |Accepted(lines, parse)| <= |lines|
    ensures |Accepted(lines, parse)| < |lines| ==> parse(lines[|Accepted(lines, parse)|]).Error?
    ensures forall i :: 0 <= i < |Accepted(lines, parse)| ==> parse(lines[i]) == Ok(Accepted(lines, parse)[i])
    decreases |lines|
  {
    if lines != [] && parse(lines[0]).Ok? {
      AcceptedAre(lines[1..], parse);
    }
  }

  lemma AllParse(lines: seq<string>)
    ensures ParseAll(lines).Ok? <==> forall i :: 0 <= i < |lines| ==> ParseLine(lines[i]).Ok?
    ensures ParseAll(lines).Ok? ==>
              && |ParseAll(lines).value| == |lines|
              && forall i :: 0 <= i < |lines| ==> Ok(ParseAll(lines).value[i]) == ParseLine(lines[i])
  {
    var parse := line => ParseLine(line);
    EachParses(lines, parse);
    assert forall i :: 0 <= i < |lines| ==> parse(lines[i]) == ParseLine(lines[i]);
  }

  /** A text reads exactly if each of its lines does, as the entries of its lines in order. */
  lemma ReadTextIff(text: string)
    ensures ReadText(text).Ok? <==> forall i :: 0 <= i < |Lines(text)| ==> ParseLine(Lines(text)[i]).Ok?
    ensures ReadText(text).Ok? ==>
              && |ReadText(text).value| == |Lines(text)|
              && forall i :: 0 <= i < |Lines(text)| ==> Ok(ReadText(text).value[i]) == ParseLine(Lines(text)[i])
  {
    var lines := Lines(text);
    AllParse(lines);
    assert ReadText(text) == ParseAll(lines);
    assert forall i :: 0 <= i < |lines| ==> lines[i] == Lines(text)[i];
  }

  // ----- Round trips -----

  predicate CleanText(s: string) {
    Free(s, ':') && Free(s, '\n')
  }

  /** No separator in a text field, and no interpreter that is present but empty. */
  predicate CleanEntry(e: Entry) {
    && CleanText(e.loginName) && CleanText(e.encryptedPassword)
    && CleanText(e.userNameOrCommentField) && CleanText(e.userHomeDirectory)
    && (e.userCommandInterpreter.Some? ==>
          e.userCommandInterpreter.value != "" && CleanText(e.userCommandInterpreter.value))
  }

  predicate CleanEntries(entries: seq<Entry>) {
    forall i :: 0 <= i < |entries| ==> CleanEntry(entries[i])
  }

  lemma DigitsAreClean(s: string)
    requires AllDigits(s)
    ensures CleanText(s)
  {
  }

  lemma LineSplits(e: Entry)
    requires CleanEntry(e)
    ensures Split(LineOf(e), ':') == Fields(e)
  {
    DigitsAreClean(Decimal(e.uid));
    DigitsAreClean(Decimal(e.gid));
    SplitJoin(Fields(e), ':');
  }

  lemma LineParsesBack(e: Entry)
    requires CleanEntry(e)
    ensures ParseLine(LineOf(e)) == Ok(e)
  {
    LineSplits(e);
    FieldsGiveEntry(e);
  }

  lemma FieldsAndIdsGiveEntry(e: Entry)
    requires e.userCommandInterpreter != Some("")
    ensures EntryFrom(Fields(e), Ok(e.uid), Ok(e.gid)) == Ok(e)
  {
  }

  lemma FieldsGiveEntry(e: Entry)
    requires e.userCommandInterpreter != Some("")
    ensures EntryOf(Fields(e)) == Ok(e)
  {
    FieldsAndIdsGiveEntry(e);
    StoulReadsDecimal(e.uid);
    StoulReadsDecimal(e.gid);
    assert Fields(e)[2] == Decimal(e.uid) && Fields(e)[3] == Decimal(e.gid);
  }

  lemma {:induction false} JoinKeepsFree(ts: seq<string>, c: char, d: char)
    requires c != d && forall i :: 0 <= i < |ts| ==> Free(ts[i], d)
    ensures Free(Join(ts, c), d)
  {
    if |ts| > 1 {
      JoinKeepsFree(ts[1..], c, d);
    }
  }

  lemma LineIsFree(e: Entry)
    requires CleanEntry(e)
    ensures Free(LineOf(e), '\n')
  {
    DigitsAreClean(Decimal(e.uid));
    DigitsAreClean(Decimal(e.gid));
    JoinKeepsFree(Fields(e), ':', '\n');
  }

  lemma FirstOfLines(line: string, rest: string)
    requires Free(line, '\n')
    ensures Lines(line + "\n" + rest) == [line] + Lines(rest)
  {
    var text := line + "\n" + rest;
    assert text[|line|] == '\n';
    assert forall i :: 0 <= i < |line| ==> text[i] == line[i];
    assert IndexOf(text, '\n') == |line|;
    assert text[..|line|] == line && text[|line| + 1..] == rest;
  }

  function LinesOf(entries: seq<Entry>): seq<string> {
    if entries == [] then [] else [LineOf(entries[0])] + LinesOf(entries[1..])
  }

  lemma {:induction false} WrittenLines(entries: seq<Entry>)
    requires CleanEntries(entries)
    ensures Lines(WriteText(entries)) == LinesOf(entries)
    decreases |entries|
  {
    if entries != [] {
      WrittenLines(entries[1..]);
      LineIsFree(entries[0]);
      FirstOfLines(LineOf(entries[0]), WriteText(entries[1..]));
    }
  }

  lemma {:induction false} LinesParse(entries: seq<Entry>, parse: string -> Result<Entry>)
    requires forall i :: 0 <= i < |entries| ==> parse(LineOf(entries[i])) == Ok(entries[i])
    ensures ParseEach(LinesOf(entries), parse) == Ok(entries)
    decreases |entries|
  {
    if entries != [] {
      LinesParse(entries[1..], parse);
      var lines := LinesOf(entries);
      assert lines[1..] == LinesOf(entries[1..]);
      assert [entries[0]] + entries[1..] == entries;
    }
  }

  /** Writing clean entries and reading them gives them back. */
  lemma WriteThenRead(entries: seq<Entry>)
    requires CleanEntries(entries)
    ensures ReadText(WriteText(entries)) == Ok(entries)
  {
    var parse := (line: string) => ParseLine(line);
    forall i | 0 <= i < |entries| ensures parse(LineOf(entries[i])) == Ok(entries[i]) {
      LineParsesBack(entries[i]);
    }
    WrittenLines(entries);
    LinesParse(entries, parse);
  }

  lemma {:induction false} SplitKeepsFree(s: string, c: char, d: char)
    requires Free(s, d)
    ensures forall i :: 0 <= i < |Split(s, c)| ==> Free(Split(s, c)[i], d)
  {
    if s != "" {
      assert Free(s[1..], d);
      SplitKeepsFree(s[1..], c, d);
      var r := Split(s[1..], c);
      assert Free(r[0], d);
      if s[0] != c {
        forall i | 0 <= i < |Split(s, c)| ensures Free(Split(s, c)[i], d) {
          assert i > 0 ==> Split(s, c)[i] == r[i];
        }
      } else {
        forall i | 0 <= i < |Split(s, c)| ensures Free(Split(s, c)[i], d) {
          assert i > 0 ==> Split(s, c)[i] == r[i - 1];
        }
      }
    }
  }

  lemma ParsedLineIsClean(line: string)
    requires Free(line, '\n') && ParseLine(line).Ok?
    ensures CleanEntry(ParseLine(line).value)
  {
    var tokens := Split(line, ':');
    SplitTokensFree(line, ':');
    SplitKeepsFree(line, ':', '\n');
  }

  lemma {:induction false} ReadIsClean(text: string)
    requires ReadText(text).Ok?
    ensures CleanEntries(ReadText(text).value)
    decreases |text|
  {
    if text != "" {
      var line, rest := FirstLine(text), AfterFirstLine(text);
      assert Lines(text)[1..] == Lines(rest);
      ParsedLineIsClean(line);
      ReadIsClean(rest);
      var es := ReadText(text).value;
      assert es == [ParseLine(line).value] + ReadText(rest).value;
    }
  }

  /** Writing then reading gives the same list for exactly the lists of clean entries. */
  lemma RoundTripIffClean(entries: seq<Entry>)
    ensures ReadText(WriteText(entries)) == Ok(entries) <==> CleanEntries(entries)
  {
    if CleanEntries(entries) {
      WriteThenRead(entries);
    } else if ReadText(WriteText(entries)) == Ok(entries) {
      ReadIsClean(WriteText(entries));
    }
  }

  /** Whatever text reads without an exception: reading, writing and reading again is reading once. */
  lemma ReadWriteRead(text: string)
    requires ReadText(text).Ok?
    ensures ReadText(WriteText(ReadText(text).value)) == ReadText(text)
  {
    ReadIsClean(text);
    WriteThenRead(ReadText(text).value);
  }
}
