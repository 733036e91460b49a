/**
 * The pure parts of the HotSpot attach client: the bytes of a command
 * request, reading the status integer and dispatching on it, finding the
 * process's namespace pid in `/proc/<pid>/status`, and the paths of the
 * attach trigger file and the socket. Files, sockets, signals and the
 * waiting loop are left to the caller: the model takes the bytes a socket
 * or file would yield as parameters.
 */
module JvmAttach {
  import opened Ints
  import opened Errors
  import Text
  import Utf8

  /** The failures of the attach client that do not come from the operating system. */
  datatype AttachError =
    | StatusParse(reason: string)
    | IntegerReadBadString
    | IntegerReadNotInteger
    | NoSocket
    | CommandError(message: string)
    | InvalidData

  datatype Outcome<T> = Done(value: T) | Failed(error: AttachError)

  // ----- Requests -----

  /** The protocol always carries three arguments: missing ones are empty, extra ones dropped. */
  function PaddedArgs(args: seq<string>): (r: seq<string>)
    ensures |r| == 3
    ensures forall i :: 0 <= i < 3 ==> r[i] == (if i < |args| then args[i] else "")
  {
    if |args| < 3 then args + seq(3 - |args|, _ => "") else args[..3]
  }

  /** Each text as its UTF-8 bytes followed by one NUL byte. */
  function Frame(parts: seq<string>): (r: seq<Byte>)
    ensures |r| >= |parts|
    decreases |parts|
  {
    if |parts| == 0 then [] else Utf8.Encode(parts[0]) + [0] + Frame(parts[1..])
  }

  /** `send_command`'s request: the protocol version `1`, the command, then the three arguments. */
  function Request(command: string, args: seq<string>): (r: seq<Byte>)
    ensures |r| >= 2 && r[..2] == [0x31, 0]
  {
    var r := Frame(["1", command] + PaddedArgs(args));
    assert Utf8.Encode("1") == [0x31];
    r
  }

  /** Position of the first `x` in `b`. */
  function IndexOfByte(b: seq<Byte>, x: Byte): (r: Option<nat>)
    ensures r.None? <==> x !in b
    ensures r.Some? ==> r.value < |b| && b[r.value] == x && x !in b[..r.value]
    decreases |b|
  {
    if |b| == 0 then None
    else if b[0] == x then Some(0)
    else
      match IndexOfByte(b[1..], x)
      case None => None
      case Some(i) => assert b[..i + 1] == [b[0]] + b[1..][..i]; Some(i + 1)
  }

  /**
   * The receiving side of the framing: NUL-terminated UTF-8 texts, `None`
   * if a text is ill-formed or the last one lacks its terminator.
   */
  function Unframe(b: seq<Byte>): (r: Option<seq<string>>)
    decreases |b|
  {
    if |b| == 0 then Some([])
    else
      match IndexOfByte(b, 0)
      case None => None
      case Some(i) =>
        match Utf8.Decode(b[..i])
        case None => None
        case Some(s) =>
          match Unframe(b[i + 1..])
          case None => None
          case Some(rest) => Some([s] + rest)
  }

  /** A text without NUL encodes without a zero byte. */
  lemma {:induction false} EncodeNoNul(s: string)
    requires '\0' !in s
    ensures 0 !in Utf8.Encode(s)
    decreases |s|
  {
    if |s| > 0 {
      assert s[0] != '\0' && '\0' !in s[1..];
      EncodeNoNul(s[1..]);
      assert 0 !in Utf8.EncodeChar(s[0]);
    }
  }

  /** One framed text without NUL is read back, then the rest is unframed. */
  lemma UnframeCons(t: string, more: seq<Byte>)
    requires '\0' !in t
    ensures Unframe(Utf8.Encode(t) + [0] + more) ==
      if Unframe(more).Some? then Some([t] + Unframe(more).value) else None
  {
    var e := Utf8.Encode(t);
    var b := e + [0] + more;
    EncodeNoNul(t);
    assert b[|e|] == 0 && b[..|e|] == e;
    assert IndexOfByte(b, 0) == Some(|e|);
    Utf8.DecodeEncode(t);
    assert b[|e| + 1..] == more;
  }

  /** Texts without NUL come back out of their framing unchanged. */
  lemma {:induction false} FrameRoundTrip(parts: seq<string>)
    requires forall i :: 0 <= i < |parts| ==> '\0' !in parts[i]
    ensures Unframe(Frame(parts)) == Some(parts)
    decreases |parts|
  {
    if |parts| > 0 {
      assert forall i :: 1 <= i < |parts| ==> parts[1..][i - 1] == parts[i];
      FrameRoundTrip(parts[1..]);
      UnframeCons(parts[0], Frame(parts[1..]));
      assert parts == [parts[0]] + parts[1..];
    }
  }

  /**
   * The JVM reads back the version, the command and exactly three
   * arguments, the given ones first.
   */
  lemma RequestRoundTrip(command: string, args: seq<string>)
    requires '\0' !in command && forall i :: 0 <= i < |args| ==> '\0' !in args[i]
    ensures Unframe(Request(command, args)) == Some(["1", command] + PaddedArgs(args))
  {
    var parts := ["1", command] + PaddedArgs(args);
    forall i | 0 <= i < |parts| ensures '\0' !in parts[i] {
      if i >= 2 && i - 2 >= |args| {
        assert parts[i] == "";
      }
    }
    FrameRoundTrip(parts);
  }

  // ----- Replies -----

  /** The bytes before the first newline (or all of them), and what follows that newline. */
  function ReadLine(stream: seq<Byte>): (r: (seq<Byte>, seq<Byte>))
    ensures 10 !in r.0
    ensures 10 in stream ==> stream == r.0 + [10] + r.1
    ensures 10 !in stream ==> r.0 == stream && r.1 == []
  {
    match IndexOfByte(stream, 10)
    case None => (stream, [])
    case Some(i) =>
      assert stream == stream[..i] + [10] + stream[i + 1..];
      (stream[..i], stream[i + 1..])
  }

  /**
   * `read_int`: the line up to the first newline or the end of the
   * stream, which must be UTF-8 and an `i32`; the rest of the stream
   * is left unread.
   */
  function ReadInt(stream: seq<Byte>): (r: Outcome<(I32, seq<Byte>)>)
    ensures r.Failed? ==> r.error == IntegerReadBadString || r.error == IntegerReadNotInteger
    ensures r == Failed(IntegerReadBadString) <==> Utf8.Decode(ReadLine(stream).0).None?
    ensures r == Failed(IntegerReadNotInteger) <==>
      Utf8.Decode(ReadLine(stream).0).Some? && Text.ParseI32(Utf8.Decode(ReadLine(stream).0).value).None?
    ensures r.Done? ==>
      Utf8.Decode(ReadLine(stream).0).Some? && Text.ParseI32(Utf8.Decode(ReadLine(stream).0).value) == Some(r.value.0 as int)
    ensures r.Done? ==> r.value.1 == ReadLine(stream).1
  {
    var (line, rest) := ReadLine(stream);
    match Utf8.Decode(line)
    case None => Failed(IntegerReadBadString)
    case Some(s) =>
      match Text.ParseI32(s)
      case None => Failed(IntegerReadNotInteger)
      case Some(v) => Done((v, rest))
  }

  /** Text of ASCII characters encodes one byte per character. */
  lemma {:induction false} EncodeAscii(s: string)
    requires forall i :: 0 <= i < |s| ==> (s[i] as int) < 0x80
    ensures |Utf8.Encode(s)| == |s|
    ensures forall i :: 0 <= i < |s| ==> Utf8.Encode(s)[i] == s[i] as int
    decreases |s|
  {
    if |s| > 0 {
      EncodeAscii(s[1..]);
      assert Utf8.Encode(s) == [s[0] as int] + Utf8.Encode(s[1..]);
    }
  }

  /** The decimal text of an integer has no newline once encoded. */
  lemma ShowIntNoNewline(v: int)
    ensures 10 !in Utf8.Encode(Text.ShowInt(v))
  {
    var t := Text.ShowInt(v);
    assert forall i :: 0 <= i < |t| ==> t[i] == '-' || Text.IsDigit(t[i]) by {
      if v < 0 {
        assert t == "-" + Text.ShowNat(-v);
        forall i | 0 <= i < |t| ensures t[i] == '-' || Text.IsDigit(t[i]) {
          if i > 0 { assert t[i] == Text.ShowNat(-v)[i - 1]; }
        }
      }
    }
    EncodeAscii(t);
  }

  /** An `i32` written in decimal and ended by a newline is read back, with the rest untouched. */
  lemma ReadIntRoundTrip(v: I32, rest: seq<Byte>)
    ensures ReadInt(Utf8.Encode(Text.ShowInt(v)) + [10] + rest) == Done((v, rest))
  {
    var e := Utf8.Encode(Text.ShowInt(v));
    var stream := e + [10] + rest;
    ShowIntNoNewline(v);
    assert stream[|e|] == 10;
    assert IndexOfByte(stream, 10) == Some(|e|);
    assert stream[..|e|] == e && stream[|e| + 1..] == rest;
    Utf8.DecodeEncode(Text.ShowInt(v));
    Text.ParseShowInt(v, true, -0x8000_0000, 0x7FFF_FFFF);
  }

  /** What a command's reply says: success, with the rest of the reply to read, or an error text. */
  datatype CommandResponse = Success(output: seq<Byte>) | ErrorReply(reason: string)

  /** `read_to_string`: the bytes as text, or an `InvalidData` failure when they are not UTF-8. */
  function ReadToString(b: seq<Byte>): (r: Outcome<string>)
    ensures r.Done? <==> Utf8.Decode(b).Some?
    ensures r.Done? ==> Utf8.Encode(r.value) == b
    ensures r.Failed? ==> r.error == InvalidData
  {
    match Utf8.Decode(b)
    case None => Failed(InvalidData)
    case Some(s) => Utf8.DecodeSound(b); Done(s)
  }

  /**
   * `send_command` once the request is written: the status line decides;
   * `0` is success, any other integer an error whose text is the rest of
   * the reply.
   */
  function SendCommand(reply: seq<Byte>): (r: Outcome<CommandResponse>)
    ensures ReadInt(reply).Failed? ==> r == Failed(ReadInt(reply).error)
    ensures ReadInt(reply).Done? ==>
      var (status, rest) := ReadInt(reply).value;
      (r.Done? && r.value.Success? <==> status == 0) &&
      (r.Done? && r.value.Success? ==> r.value.output == rest) &&
      (status != 0 ==> (r.Failed? <==> Utf8.Decode(rest).None?)) &&
      (r.Done? && r.value.ErrorReply? ==> Utf8.Encode(r.value.reason) == rest)
  {
    match ReadInt(reply)
    case Failed(e) => Failed(e)
    case Done((status, rest)) =>
      if status == 0 then Done(Success(rest))
      else
        match ReadToString(rest)
        case Failed(e) => Failed(e)
        case Done(text) => Done(ErrorReply(text))
  }

  /** `send_command_bytes`: the output of a successful command; an error reply becomes `CommandError`. */
  function SendCommandBytes(reply: seq<Byte>): (r: Outcome<seq<Byte>>)
    ensures SendCommand(reply).Done? && SendCommand(reply).value.Success? ==>
      r == Done(SendCommand(reply).value.output)
    ensures SendCommand(reply).Done? && SendCommand(reply).value.ErrorReply? ==>
      r == Failed(CommandError(SendCommand(reply).value.reason))
    ensures SendCommand(reply).Failed? ==> r == Failed(SendCommand(reply).error)
  {
    match SendCommand(reply)
    case Failed(e) => Failed(e)
    case Done(Success(output)) => Done(output)
    case Done(ErrorReply(reason)) => Failed(CommandError(reason))
  }

  /** `send_command_string`: as `SendCommandBytes`, with the output read as text. */
  function SendCommandString(reply: seq<Byte>): (r: Outcome<string>)
    ensures r.Done? <==> SendCommandBytes(reply).Done? && Utf8.Decode(SendCommandBytes(reply).value).Some?
    ensures r.Done? ==> Utf8.Encode(r.value) == SendCommandBytes(reply).value
  {
    match SendCommand(reply)
    case Failed(e) => Failed(e)
    case Done(Success(output)) => ReadToString(output)
    case Done(ErrorReply(reason)) => Failed(CommandError(reason))
  }

  /** A `0` status line is followed by the command's output, returned as is. */
  lemma SuccessReplyRoundTrip(output: seq<Byte>)
    ensures SendCommandBytes(Utf8.Encode(Text.ShowInt(0)) + [10] + output) == Done(output)
  {
    ReadIntRoundTrip(0, output);
  }

  /** A non-zero status line is followed by the error text, which becomes the `CommandError`. */
  lemma ErrorReplyRoundTrip(status: I32, message: string)
    requires status != 0
    ensures SendCommandBytes(Utf8.Encode(Text.ShowInt(status)) + [10] + Utf8.Encode(message)) ==
      Failed(CommandError(message))
  {
    ReadIntRoundTrip(status, Utf8.Encode(message));
    Utf8.DecodeEncode(message);
  }

  // ----- Namespace pid -----

  /** The outcome of looking up the pid a process has in its own pid namespace. */
  datatype NamespacePid = NoStatus | Namespace(nsPid: I32) | NoPid

  /** `get_or_default`: the namespace pid when one was found, else the given pid. */
  function GetOrDefault(n: NamespacePid, default: I32): (r: I32)
    ensures n.Namespace? ==> r == n.nsPid
    ensures !n.Namespace? ==> r == default
  {
    match n
    case NoStatus => default
    case Namespace(p) => p
    case NoPid => default
  }

  const NSpidTag: string := "NSpid:"

  /** The index of the first line carrying the `NSpid:` tag. */
  function FirstTagged(lines: seq<string>): (r: Option<nat>)
    ensures r.None? <==> forall i :: 0 <= i < |lines| ==> !Text.StartsWith(lines[i], NSpidTag)
    ensures r.Some? ==>
      r.value < |lines| && Text.StartsWith(lines[r.value], NSpidTag) &&
      forall j :: 0 <= j < r.value ==> !Text.StartsWith(lines[j], NSpidTag)
    decreases |lines|
  {
    if |lines| == 0 then None
    else if Text.StartsWith(lines[0], NSpidTag) then Some(0)
    else
      assert forall i :: 1 <= i < |lines| ==> lines[1..][i - 1] == lines[i];
      match FirstTagged(lines[1..])
      case None => None
      case Some(i) => Some(i + 1)
  }

  /** A tagged line has a first `:`, so it has a second field. */
  lemma TaggedHasField(line: string)
    requires Text.StartsWith(line, NSpidTag)
    ensures Text.SecondField(line, ':').Some?
  {
    assert line[..6][5] == ':';
    assert line[5] in line;
  }

  /**
   * The loop over `status.lines()`: the text between the first and second
   * `:` of the first `NSpid:` line. Such a line always has a first `:`, so
   * the "invalid syntax" error cannot arise.
   */
  function TaggedValue(text: string): (r: Option<string>)
    ensures r.None? <==> FirstTagged(Text.Lines(text)).None?
    ensures r.Some? ==>
      var i := FirstTagged(Text.Lines(text)).value;
      Text.SecondField(Text.Lines(text)[i], ':') == Some(r.value)
  {
    var lines := Text.Lines(text);
    match FirstTagged(lines)
    case None => None
    case Some(i) =>
      TaggedHasField(lines[i]);
      Text.SecondField(lines[i], ':')
  }

  /**
   * `namespace_pid` as written, given the status file's text (`None` when
   * the file does not exist): the tagged value, trimmed, read as one `i32`.
   */
  function NamespacePidAsWritten(status: Option<string>): (r: Outcome<NamespacePid>)
    ensures status.None? <==> r == Done(NoStatus)
    ensures r == Done(NoPid) <==> status.Some? && TaggedValue(status.value).None?
    ensures r.Done? && r.value.Namespace? ==>
      Text.ParseI32(Text.Trim(TaggedValue(status.value).value)) == Some(r.value.nsPid as int)
    ensures r.Failed? <==>
      status.Some? && TaggedValue(status.value).Some? &&
      Text.ParseI32(Text.Trim(TaggedValue(status.value).value)).None?
    ensures r.Failed? ==> r.error == StatusParse("NSpid value not an integer")
  {
    match status
    case None => Done(NoStatus)
    case Some(text) =>
      match TaggedValue(text)
      case None => Done(NoPid)
      case Some(value) =>
        match Text.ParseI32(Text.Trim(value))
        case None => Failed(StatusParse("NSpid value not an integer"))
        case Some(v) => Done(Namespace(v))
  }

  /** The `NSpid:` line of a process in nested namespaces: one pid per level, tab-separated. */
  function TabbedPids(pids: seq<I32>): string
  {
    if |pids| == 0 then "" else TabbedPids(pids[..|pids| - 1]) + "\t" + Text.ShowInt(pids[|pids| - 1])
  }

  /** Among `before + [line] + after`, the first tagged line is `line` when nothing before it is. */
  lemma FirstTaggedAt(before: seq<string>, line: string, after: seq<string>)
    requires forall i :: 0 <= i < |before| ==> !Text.StartsWith(before[i], NSpidTag)
    requires Text.StartsWith(line, NSpidTag)
    ensures FirstTagged(before + [line] + after) == Some(|before|)
  {
    var lines := before + [line] + after;
    assert lines[|before|] == line;
    assert forall j :: 0 <= j < |before| ==> lines[j] == before[j];
  }

  /** Lines without line breaks are read back from their text. */
  lemma StatusLines(before: seq<string>, line: string, after: seq<string>)
    requires forall i :: 0 <= i < |before| ==> '\n' !in before[i] && '\r' !in before[i]
    requires forall i :: 0 <= i < |after| ==> '\n' !in after[i] && '\r' !in after[i]
    requires '\n' !in line && '\r' !in line
    ensures Text.Lines(Text.Unlines(before + [line] + after)) == before + [line] + after
  {
    var lines := before + [line] + after;
    forall i | 0 <= i < |lines| ensures '\n' !in lines[i] && '\r' !in lines[i] {
      if i < |before| {
        assert lines[i] == before[i];
      } else if i > |before| {
        assert lines[i] == after[i - |before| - 1];
      }
    }
    Text.LinesUnlines(lines);
  }

  /** The second field of a tagged line is everything after the tag, when it has no `:`. */
  lemma TaggedField(value: string)
    requires ':' !in value
    ensures Text.SecondField(NSpidTag + value, ':') == Some(value)
  {
    assert NSpidTag + value == "NSpid" + [':'] + value;
    Text.SplitOnceAt("NSpid", ':', value);
  }

  /** The tagged value of a status text is the field of its first tagged line. */
  lemma TaggedLineValue(text: string, before: seq<string>, line: string, after: seq<string>)
    requires Text.Lines(text) == before + [line] + after
    requires forall i :: 0 <= i < |before| ==> !Text.StartsWith(before[i], NSpidTag)
    requires Text.StartsWith(line, NSpidTag)
    ensures TaggedValue(text) == Text.SecondField(line, ':')
  {
    var lines := before + [line] + after;
    FirstTaggedAt(before, line, after);
    assert lines[|before|] == line;
    TaggedValueAt(text, lines, |before|);
  }

  /** The tagged value of a status text whose first `NSpid:` line carries `value`. */
  lemma TaggedValueOf(text: string, before: seq<string>, value: string, after: seq<string>)
    requires Text.Lines(text) == before + [NSpidTag + value] + after
    requires forall i :: 0 <= i < |before| ==> !Text.StartsWith(before[i], NSpidTag)
    requires ':' !in value
    ensures TaggedValue(text) == Some(value)
  {
    var line := NSpidTag + value;
    assert Text.StartsWith(line, NSpidTag) by { assert line[..|NSpidTag|] == NSpidTag; }
    TaggedLineValue(text, before, line, after);
    TaggedField(value);
  }

  /** When the text's lines are known and the first tagged one found, the value is that line's field. */
  lemma TaggedValueAt(text: string, lines: seq<string>, i: nat)
    requires Text.Lines(text) == lines && FirstTagged(lines) == Some(i)
    ensures TaggedValue(text) == Text.SecondField(lines[i], ':')
  {
  }


  /** The start of the run of non-white-space characters that ends at `e`. */
  function WordStart(s: string, e: nat): (k: nat)
    requires e <= |s|
    ensures k <= e
    ensures forall j :: k <= j < e ==> !Text.IsWhiteSpace(s[j])
    ensures k > 0 ==> Text.IsWhiteSpace(s[k - 1])
    decreases e
  {
    if e > 0 && !Text.IsWhiteSpace(s[e - 1]) then WordStart(s, e - 1) else e
  }

  /** `split_whitespace().last()`: the last white-space-separated word, empty if there is none. */
  function LastWord(s: string): (r: string)
    ensures forall j :: 0 <= j < |r| ==> !Text.IsWhiteSpace(r[j])
    ensures |r| <= |s|
  {
    var e := Text.TrimEndTo(s, 0, |s|);
    s[WordStart(s, e)..e]
  }

  lemma {:induction false} WordStartAfter(x: string, ws: char, w: string, n: nat)
    requires Text.IsWhiteSpace(ws) && n <= |w|
    requires forall j :: 0 <= j < |w| ==> !Text.IsWhiteSpace(w[j])
    ensures WordStart(x + [ws] + w, |x| + 1 + n) == |x| + 1
    decreases n
  {
    var s := x + [ws] + w;
    if n > 0 {
      assert s[|x| + 1 + n - 1] == w[n - 1];
      WordStartAfter(x, ws, w, n - 1);
    } else {
      assert s[|x|] == ws;
    }
  }

  /** The word after the last white space of `x + ws + w` is `w`. */
  lemma LastWordAfter(x: string, ws: char, w: string)
    requires Text.IsWhiteSpace(ws) && |w| > 0
    requires forall j :: 0 <= j < |w| ==> !Text.IsWhiteSpace(w[j])
    ensures LastWord(x + [ws] + w) == w
  {
    var s := x + [ws] + w;
    assert s[|s| - 1] == w[|w| - 1];
    assert Text.TrimEndTo(s, 0, |s|) == |s|;
    WordStartAfter(x, ws, w, |w|);
    assert s[|x| + 1..] == w;
  }

  /**
   * `namespace_pid` as evidently intended: the pid in the innermost
   * namespace, the last of those the `NSpid:` line lists.
   */
  function NamespacePidFromStatus(status: Option<string>): (r: Outcome<NamespacePid>)
    ensures status.None? <==> r == Done(NoStatus)
    ensures r == Done(NoPid) <==> status.Some? && TaggedValue(status.value).None?
    ensures r.Done? && r.value.Namespace? ==>
      Text.ParseI32(LastWord(TaggedValue(status.value).value)) == Some(r.value.nsPid as int)
    ensures r.Failed? ==> r.error == StatusParse("NSpid value not an integer")
  {
    match status
    case None => Done(NoStatus)
    case Some(text) =>
      match TaggedValue(text)
      case None => Done(NoPid)
      case Some(value) =>
        match Text.ParseI32(LastWord(value))
        case None => Failed(StatusParse("NSpid value not an integer"))
        case Some(v) => Done(Namespace(v))
  }

  /** Decimal text is a sign and digits. */
  lemma ShowIntChars(v: int)
    ensures forall j :: 0 <= j < |Text.ShowInt(v)| ==> Text.ShowInt(v)[j] == '-' || Text.IsDigit(Text.ShowInt(v)[j])
  {
    var t := Text.ShowInt(v);
    if v < 0 {
      assert t == "-" + Text.ShowNat(-v);
      forall j | 0 <= j < |t| ensures t[j] == '-' || Text.IsDigit(t[j]) {
        if j > 0 { assert t[j] == Text.ShowNat(-v)[j - 1]; }
      }
    }
  }

  /** The tab-separated pids are tabs, signs and digits. */
  lemma {:induction false} TabbedChars(pids: seq<I32>)
    ensures forall c :: c in TabbedPids(pids) ==> c == '\t' || c == '-' || Text.IsDigit(c)
    decreases |pids|
  {
    if |pids| > 0 {
      TabbedChars(pids[..|pids| - 1]);
      ShowIntChars(pids[|pids| - 1]);
    }
  }

  /** A status text whose tagged value's last word reads as `v` gives the namespace pid `v`. */
  lemma NamespacePidOfValue(text: string, value: string, v: I32)
    requires TaggedValue(text) == Some(value) && Text.ParseI32(LastWord(value)) == Some(v as int)
    ensures NamespacePidFromStatus(Some(text)) == Done(Namespace(v))
  {
  }

  /** The tab-separated pids end with a tab and the innermost pid. */
  lemma TabbedLast(pids: seq<I32>)
    requires |pids| > 0
    ensures LastWord(TabbedPids(pids)) == Text.ShowInt(pids[|pids| - 1])
  {
    var last := pids[|pids| - 1];
    ShowIntChars(last);
    LastWordAfter(TabbedPids(pids[..|pids| - 1]), '\t', Text.ShowInt(last));
  }

  /** A tagged value listing the pids of every namespace level yields the innermost pid. */
  lemma InnermostOfValue(text: string, pids: seq<I32>)
    requires |pids| > 0 && TaggedValue(text) == Some(TabbedPids(pids))
    ensures NamespacePidFromStatus(Some(text)) == Done(Namespace(pids[|pids| - 1]))
  {
    var last := pids[|pids| - 1];
    TabbedLast(pids);
    Text.ParseShowInt(last, true, -0x8000_0000, 0x7FFF_FFFF);
    NamespacePidOfValue(text, TabbedPids(pids), last);
  }

  /**
   * Whatever lines surround it, the first `NSpid:` line listing the pids
   * of every namespace level yields the innermost pid.
   */
  lemma NamespacePidInnermost(text: string, before: seq<string>, pids: seq<I32>, after: seq<string>)
    requires |pids| > 0
    requires Text.Lines(text) == before + [NSpidTag + TabbedPids(pids)] + after
    requires forall i :: 0 <= i < |before| ==> !Text.StartsWith(before[i], NSpidTag)
    ensures NamespacePidFromStatus(Some(text)) == Done(Namespace(pids[|pids| - 1]))
  {
    var value := TabbedPids(pids);
    var last := pids[|pids| - 1];
    TabbedChars(pids);
    assert ':' !in value;
    TaggedValueOf(text, before, value, after);
    TabbedLast(pids);
    Text.ParseShowInt(last, true, -0x8000_0000, 0x7FFF_FFFF);
    NamespacePidOfValue(text, value, last);
  }

  /** Each pid printed, in order. */
  function Words(pids: seq<I32>): (r: seq<string>)
    ensures |r| == |pids|
  {
    if |pids| == 0 then [] else Words(pids[..|pids| - 1]) + [Text.ShowInt(pids[|pids| - 1])]
  }

  /** Words joined as `TabbedPids` joins pids: a tab before each. */
  function Join(ws: seq<string>): string
  {
    if |ws| == 0 then "" else Join(ws[..|ws| - 1]) + "\t" + ws[|ws| - 1]
  }

  lemma {:induction false} JoinFront(ws: seq<string>)
    requires |ws| > 0
    ensures Join(ws) == "\t" + ws[0] + Join(ws[1..])
    decreases |ws|
  {
    if |ws| == 1 {
      assert ws[..0] == [] && ws[1..] == [];
    } else {
      var init := ws[..|ws| - 1];
      JoinFront(init);
      assert init[0] == ws[0];
      assert init[1..] == ws[1..][..|ws| - 2];
      assert ws[1..][|ws| - 2] == ws[|ws| - 1];
    }
  }

  lemma {:induction false} TabbedIsJoin(pids: seq<I32>)
    ensures TabbedPids(pids) == Join(Words(pids))
    decreases |pids|
  {
    if |pids| > 0 {
      TabbedIsJoin(pids[..|pids| - 1]);
      var ws := Words(pids);
      assert ws[..|ws| - 1] == Words(pids[..|pids| - 1]);
    }
  }

  lemma {:induction false} WordsTail(pids: seq<I32>)
    requires |pids| > 0
    ensures Words(pids)[0] == Text.ShowInt(pids[0]) && Words(pids)[1..] == Words(pids[1..])
    decreases |pids|
  {
    if |pids| > 1 {
      var init := pids[..|pids| - 1];
      WordsTail(init);
      assert init[1..] == pids[1..][..|pids| - 2];
      assert pids[1..][|pids| - 2] == pids[|pids| - 1];
    }
  }

  /** The pids read from the front: a tab and the outermost pid come first. */
  lemma TabbedFront(pids: seq<I32>)
    requires |pids| > 0
    ensures TabbedPids(pids) == "\t" + Text.ShowInt(pids[0]) + TabbedPids(pids[1..])
  {
    TabbedIsJoin(pids);
    TabbedIsJoin(pids[1..]);
    WordsTail(pids);
    JoinFront(Words(pids));
  }

  /** A leading tab, a word, then a tab: trimming keeps the inner tab, so no integer is read. */
  lemma TrimKeepsTab(w: string, rest: string)
    requires |w| > 0 && forall j :: 0 <= j < |w| ==> !Text.IsWhiteSpace(w[j])
    requires |rest| > 0 && rest[0] == '\t' && !Text.IsWhiteSpace(rest[|rest| - 1])
    ensures Text.ParseI32(Text.Trim("\t" + w + rest)).None?
  {
    var value := "\t" + w + rest;
    assert value[1] == w[0];
    assert Text.TrimStartFrom(value, 0) == 1;
    assert value[|value| - 1] == rest[|rest| - 1];
    var r := Text.Trim(value);
    assert |r| == |value| - 1;
    assert r[|w|] == value[1 + |w|] == '\t';
  }

  /** The tab-separated pids end with the last pid's final digit. */
  lemma TabbedEnd(pids: seq<I32>)
    requires |pids| > 0
    ensures |TabbedPids(pids)| > 0 && !Text.IsWhiteSpace(TabbedPids(pids)[|TabbedPids(pids)| - 1])
  {
    var last := Text.ShowInt(pids[|pids| - 1]);
    ShowIntChars(pids[|pids| - 1]);
    assert TabbedPids(pids)[|TabbedPids(pids)| - 1] == last[|last| - 1];
  }

  /** Trimmed, a list of two or more pids still holds the tab after the first. */
  lemma TrimmedTabbedNotInteger(pids: seq<I32>)
    requires |pids| >= 2
    ensures Text.ParseI32(Text.Trim(TabbedPids(pids))).None?
  {
    var head := Text.ShowInt(pids[0]);
    var rest := TabbedPids(pids[1..]);
    TabbedFront(pids);
    TabbedFront(pids[1..]);
    ShowIntChars(pids[0]);
    TabbedEnd(pids[1..]);
    TrimKeepsTab(head, rest);
  }

  /**
   * A process seen from an outer pid namespace lists one pid per level,
   * and the code as written rejects such a line instead of taking the
   * innermost pid.
   */
  lemma NestedNamespaceRejected(text: string, before: seq<string>, pids: seq<I32>, after: seq<string>)
    requires |pids| >= 2
    requires Text.Lines(text) == before + [NSpidTag + TabbedPids(pids)] + after
    requires forall i :: 0 <= i < |before| ==> !Text.StartsWith(before[i], NSpidTag)
    ensures NamespacePidAsWritten(Some(text)) == Failed(StatusParse("NSpid value not an integer"))
  {
    var value := TabbedPids(pids);
    TabbedChars(pids);
    assert ':' !in value;
    TaggedValueOf(text, before, value, after);
    TrimmedTabbedNotInteger(pids);
  }

  // ----- Paths -----

  const ProcFs: string := "/proc"

  /** The trigger file and the socket of a request. */
  datatype AttachPaths = AttachPaths(attachPidPath: string, socketPath: string)

  /** `<procfs>/<pid>/root/tmp`, where the JVM's `/tmp` appears from outside its mount namespace. */
  function ProtocolDir(pid: I32): string
  {
    ProcFs + "/" + Text.ShowInt(pid) + "/root/tmp"
  }

  /** The paths of `UnixSocketRequest::new`, named by the namespace pid inside the process's own `/tmp`. */
  function PathsFor(pid: I32, nsPid: I32): (r: AttachPaths)
    ensures Text.StartsWith(r.attachPidPath, ProtocolDir(pid) + "/.attach_pid")
    ensures Text.StartsWith(r.socketPath, ProtocolDir(pid) + "/.java_pid")
  {
    var dir := ProtocolDir(pid);
    var a := dir + "/.attach_pid" + Text.ShowInt(nsPid);
    var s := dir + "/.java_pid" + Text.ShowInt(nsPid);
    assert a[..|dir + "/.attach_pid"|] == dir + "/.attach_pid";
    assert s[..|dir + "/.java_pid"|] == dir + "/.java_pid";
    AttachPaths(a, s)
  }

  /** The namespace pid is read back from the end of either path. */
  lemma PathsNamePid(pid: I32, nsPid: I32)
    ensures var r := PathsFor(pid, nsPid);
      var ap := |ProtocolDir(pid) + "/.attach_pid"|;
      var sp := |ProtocolDir(pid) + "/.java_pid"|;
      Text.ParseI32(r.attachPidPath[ap..]) == Some(nsPid as int) &&
      Text.ParseI32(r.socketPath[sp..]) == Some(nsPid as int)
  {
    var dir := ProtocolDir(pid);
    assert (dir + "/.attach_pid" + Text.ShowInt(nsPid))[|dir + "/.attach_pid"|..] == Text.ShowInt(nsPid);
    assert (dir + "/.java_pid" + Text.ShowInt(nsPid))[|dir + "/.java_pid"|..] == Text.ShowInt(nsPid);
    Text.ParseShowInt(nsPid, true, -0x8000_0000, 0x7FFF_FFFF);
  }

  /** A pending attach: the pids, the trigger file this request created (if any) and the socket. */
  datatype SocketRequest = SocketRequest(pid: I32, nsPid: I32, attachPidPath: Option<string>, socketPath: string)

  /**
   * `UnixSocketRequest::new`, given the status file's text and whether
   * the trigger file already exists: the namespace pid (or the pid itself)
   * names both paths, and the trigger file is recorded only when this
   * request creates it.
   */
  function NewRequest(pid: I32, status: Option<string>, attachFileExists: bool): (r: Outcome<SocketRequest>)
    ensures r.Failed? <==> NamespacePidAsWritten(status).Failed?
    ensures r.Failed? ==> r.error == StatusParse("NSpid value not an integer")
    ensures r.Done? ==>
      var ns := GetOrDefault(NamespacePidAsWritten(status).value, pid);
      r.value.nsPid == ns && r.value.pid == pid &&
      r.value.socketPath == PathsFor(pid, ns).socketPath &&
      (r.value.attachPidPath.Some? <==> !attachFileExists) &&
      (r.value.attachPidPath.Some? ==> r.value.attachPidPath.value == PathsFor(pid, ns).attachPidPath)
  {
    match NamespacePidAsWritten(status)
    case Failed(e) => Failed(e)
    case Done(n) =>
      var ns := GetOrDefault(n, pid);
      var paths := PathsFor(pid, ns);
      Done(SocketRequest(pid, ns, if attachFileExists then None else Some(paths.attachPidPath), paths.socketPath))
  }

  /**
   * A process in nested pid namespaces cannot be attached to: its `NSpid:`
   * line lists one pid per level, and the request fails with the status
   * parse error where the innermost pid was meant.
   */
  lemma NestedNamespaceRequestFails(pid: I32, text: string, before: seq<string>, pids: seq<I32>, after: seq<string>, attachFileExists: bool)
    requires |pids| >= 2
    requires Text.Lines(text) == before + [NSpidTag + TabbedPids(pids)] + after
    requires forall i :: 0 <= i < |before| ==> !Text.StartsWith(before[i], NSpidTag)
    ensures NewRequest(pid, Some(text), attachFileExists) == Failed(StatusParse("NSpid value not an integer"))
    ensures NamespacePidFromStatus(Some(text)) == Done(Namespace(pids[|pids| - 1]))
  {
    NestedNamespaceRejected(text, before, pids, after);
    NamespacePidInnermost(text, before, pids, after);
  }
}
