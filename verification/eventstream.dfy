/**
  The wire format of a task's event stream and a reader for it.

  Each line is written as `data: <json>` followed by a blank line, and a
  keep-alive as the comment `: ping` followed by a blank line, in the
  event-stream format of the HTML Living Standard, section 9.2. The reader
  below follows that section's processing for the parts the writer uses: LF
  line ends, comments, the `data` field and dispatch on a blank line. The JSON
  encoder is a parameter; JSON escapes control bytes, so its output holds no
  line feed.
 */
module EventStream {
  import opened GoStrings
  import opened GoPath
  import opened Tasks

  function FrameText(f: Frame, encode: LogLine -> string): string {
    match f
    case Data(line) => "data: " + encode(line) + "\n\n"
    case Ping => ": ping\n\n"
  }

  function Render(fs: seq<Frame>, encode: LogLine -> string): string {
    if fs == [] then "" else FrameText(fs[0], encode) + Render(fs[1..], encode)
  }

  /** The payloads a reader should see: one per data frame, pings vanish. */
  function Payloads(fs: seq<Frame>, encode: LogLine -> string): seq<string> {
    if fs == [] then []
    else if fs[0].Data? then [encode(fs[0].line)] + Payloads(fs[1..], encode)
    else Payloads(fs[1..], encode)
  }

  // ---------------------------------------------------------------------------
  // The reader

  /** A line's field name and value: up to the first colon, one leading space dropped. */
  function FieldOf(line: string): (string, string) {
    if ':' in line then
      var i := IndexOf(line, ':');
      var v := line[i + 1..];
      (line[..i], if |v| > 0 && v[0] == ' ' then v[1..] else v)
    else (line, "")
  }

  /**
    Processes complete lines with the current data buffer: a blank line
    dispatches the buffer (without its last line feed) unless it is empty,
    a line starting with a colon is a comment, a `data` field appends its value
    and a line feed, other fields do not touch the data.
   */
  function ProcessLines(lines: seq<string>, data: string): seq<string>
    decreases |lines|
  {
    if lines == [] then []
    else
      var line := lines[0];
      if line == "" then
        if data == "" then ProcessLines(lines[1..], "")
        else [data[..|data| - 1]] + ProcessLines(lines[1..], "")
      else if line[0] == ':' then ProcessLines(lines[1..], data)
      else
        var (field, value) := FieldOf(line);
        if field == "data" then ProcessLines(lines[1..], data + value + "\n")
        else ProcessLines(lines[1..], data)
  }

  /** The complete lines of a stream: the text after the last line feed is not yet a line. */
  function Lines(s: string): seq<string> {
    var parts := Split(s, '\n');
    parts[..|parts| - 1]
  }

  /** The data of every event dispatched while reading `s` from the start. */
  function Read(s: string): seq<string> {
    ProcessLines(Lines(s), "")
  }

  // ---------------------------------------------------------------------------
  // Round trip

  function FrameLines(fs: seq<Frame>, encode: LogLine -> string): seq<string> {
    if fs == [] then []
    else
      match fs[0]
      case Data(line) => ["data: " + encode(line), ""] + FrameLines(fs[1..], encode)
      case Ping => [": ping", ""] + FrameLines(fs[1..], encode)
  }

  predicate LineFree(encode: LogLine -> string, fs: seq<Frame>) {
    forall i :: 0 <= i < |fs| && fs[i].Data? ==> '\n' !in encode(fs[i].line)
  }

  /** One frame's text splits into its line and the blank line. */
  lemma SplitFrame(head: string, rest: string)
    requires '\n' !in head
    ensures Split(head + "\n\n" + rest, '\n') == [head, ""] + Split(rest, '\n')
  {
    var tail := [] + ['\n'] + rest;
    assert head + "\n\n" + rest == head + ['\n'] + tail;
    SplitAt(head, '\n', tail);
    SplitAt([], '\n', rest);
  }

  lemma {:induction false} SplitRender(fs: seq<Frame>, encode: LogLine -> string)
    requires LineFree(encode, fs)
    ensures Split(Render(fs, encode), '\n') == FrameLines(fs, encode) + [""]
    decreases |fs|
  {
    if fs != [] {
      var rest := Render(fs[1..], encode);
      assert LineFree(encode, fs[1..]) by {
        forall i | 0 <= i < |fs[1..]| && fs[1..][i].Data?
          ensures '\n' !in encode(fs[1..][i].line)
        {
          assert fs[1..][i] == fs[i + 1];
        }
      }
      SplitRender(fs[1..], encode);
      var head := match fs[0] case Data(line) => "data: " + encode(line) case Ping => ": ping";
      assert '\n' !in head by {
        if fs[0].Data? {
          assert '\n' !in encode(fs[0].line);
          assert forall k :: 0 <= k < |head| ==> head[k] == ("data: " + encode(fs[0].line))[k];
        }
      }
      assert Render(fs, encode) == head + "\n\n" + rest;
      SplitFrame(head, rest);
      SeqAssoc([head, ""], FrameLines(fs[1..], encode), [""]);
    }
  }

  lemma DataLineField(p: string)
    ensures FieldOf("data: " + p) == ("data", p)
  {
    var line := "data: " + p;
    assert line == "data" + [':'] + (" " + p);
    IndexOfFirst("data", ':', " " + p);
    assert ':' in line && IndexOf(line, ':') == 4;
    assert line[..4] == "data";
    assert line[5..] == " " + p;
    assert (" " + p)[1..] == p;
  }

  /** A data line and a blank line dispatch the line's payload. */
  lemma ProcessDataFrame(p: string, tail: seq<string>)
    ensures ProcessLines(["data: " + p, ""] + tail, "") == [p] + ProcessLines(tail, "")
  {
    var ls := ["data: " + p, ""] + tail;
    DataLineField(p);
    assert ls[0] == "data: " + p && ls[0] != "" && ls[0][0] == 'd';
    assert ls[1..] == [""] + tail;
    assert ([""] + tail)[1..] == tail;
    assert ("" + p + "\n")[..|p|] == p;
  }

  /** A ping and a blank line dispatch nothing. */
  lemma ProcessPingFrame(tail: seq<string>)
    ensures ProcessLines([": ping", ""] + tail, "") == ProcessLines(tail, "")
  {
    var ls := [": ping", ""] + tail;
    assert ls[1..] == [""] + tail;
    assert ([""] + tail)[1..] == tail;
  }

  lemma {:induction false} ProcessFrameLines(fs: seq<Frame>, encode: LogLine -> string)
    ensures ProcessLines(FrameLines(fs, encode), "") == Payloads(fs, encode)
    decreases |fs|
  {
    if fs != [] {
      var tail := FrameLines(fs[1..], encode);
      ProcessFrameLines(fs[1..], encode);
      match fs[0]
      case Data(line) => ProcessDataFrame(encode(line), tail);
      case Ping => ProcessPingFrame(tail);
    }
  }

  /**
    A reader of the rendered stream dispatches exactly the JSON of the data
    frames, in order, provided the encoder writes no line feed.
   */
  lemma ReadRender(fs: seq<Frame>, encode: LogLine -> string)
    requires LineFree(encode, fs)
    ensures Read(Render(fs, encode)) == Payloads(fs, encode)
  {
    SplitRender(fs, encode);
    assert Lines(Render(fs, encode)) == FrameLines(fs, encode);
    ProcessFrameLines(fs, encode);
  }
}
