/** The content dumper (`print_file_contents`): one framed section per file. */
module ContentDump {
  import opened Strings
  import opened FileTree
  import opened Output

  datatype Option<T> = None | Some(value: T)

  /** `"-" * 20 + "\n"`. */
  const SeparatorLine: string := "--------------------\n"

  /** A placeholder written in place of a file's text: a comment line. */
  function CommentLine(message: string): string {
    "# [" + message + "]\n"
  }

  const UnreadableMessage: string := "Could not read file content " + "(binary or permission denied)"

  const UnreadablePlaceholder: string := CommentLine(UnreadableMessage)

  function ErrorPlaceholder(description: string): string {
    CommentLine("Error reading file: " + description)
  }

  /** What is written between the framing and the trailing blank lines. */
  function Body(read: ReadOutcome): string {
    match read
    case Text(content) => content
    case DecodeOrPermissionError => UnreadablePlaceholder
    case OtherError(description) => ErrorPlaceholder(description)
  }

  /** The five `write` calls of `print_file_contents`. */
  function FileDump(path: string, read: ReadOutcome): seq<string> {
    [SeparatorLine, "# File: " + path + "\n", SeparatorLine, Body(read), "\n\n"]
  }

  method PrintFileContents(path: string, read: ReadOutcome, out: Sink)
    modifies out
    ensures out.written == old(out.written) + FileDump(path, read)
  {
    out.Write(SeparatorLine);
    out.Write("# File: " + path + "\n");
    out.Write(SeparatorLine);
    match read {
      case Text(content) =>
        out.Write(content);
      case DecodeOrPermissionError =>
        out.Write(UnreadablePlaceholder);
      case OtherError(description) =>
        out.Write(ErrorPlaceholder(description));
    }
    out.Write("\n\n");
  }

  /** The path label and the body of a section. */
  datatype Section = Section(path: string, body: string)

  /** Reads a section back: the separator, the `# File: ` label up to the
      line break, the separator again, then everything up to the final two
      line breaks. */
  function ParseDump(text: string): Option<Section> {
    ParseFramedBy(SeparatorLine, "# File: ", text)
  }

  /** `ParseDump` with the separator line and the `# File: ` marker as parameters. */
  function ParseFramedBy(separator: string, marker: string, text: string): Option<Section> {
    var head := separator + marker;
    if !(head <= text) then None
    else
      var rest := text[|head|..];
      var k := LineEnd(rest);
      if k == |rest| then None
      else
        var after := rest[k + 1..];
        if !(separator <= after) then None
        else
          var tail := after[|separator|..];
          if |tail| < 2 || tail[|tail| - 2..] != "\n\n" then None
          else Some(Section(rest[..k], tail[..|tail| - 2]))
  }

  lemma SeparatorLineShape()
    ensures |SeparatorLine| == 21
    ensures forall i | 0 <= i < 20 :: SeparatorLine[i] == '-'
    ensures SeparatorLine[20] == '\n'
  {
  }

  /** Whatever the read outcome, a section is a twenty-dash separator line,
      the path label, another separator line, the body and two line breaks. */
  lemma DumpFraming(path: string, read: ReadOutcome)
    ensures Concat(FileDump(path, read))
      == SeparatorLine + "# File: " + path + "\n" + SeparatorLine + Body(read) + "\n\n"
  {
    var heading := "# File: " + path + "\n";
    ConcatFive(SeparatorLine, heading, SeparatorLine, Body(read), "\n\n");
  }

  lemma ConcatFive(a: string, b: string, c: string, d: string, e: string)
    ensures Concat([a, b, c, d, e]) == a + b + c + d + e
  {
    var s := [a, b, c, d, e];
    assert s[1..] == [b, c, d, e] && s[2..] == [c, d, e] && s[3..] == [d, e] && s[4..] == [e];
    assert [e][1..] == [];
    assert Concat(s[4..]) == e;
    assert Concat(s[3..]) == d + e;
    assert Concat(s[2..]) == c + (d + e);
    assert Concat(s[1..]) == b + (c + (d + e));
  }

  /** Reading a section back gives the path and, between the framing,
      exactly the file's text, or the placeholder line. */
  lemma DumpRoundTrip(path: string, read: ReadOutcome)
    requires '\n' !in path
    ensures ParseDump(Concat(FileDump(path, read))) == Some(Section(path, Body(read)))
  {
    DumpFraming(path, read);
    ParseFramed(path, Body(read));
  }

  lemma ParseFramed(path: string, body: string)
    requires '\n' !in path
    ensures ParseDump(SeparatorLine + "# File: " + path + "\n" + SeparatorLine + body + "\n\n")
      == Some(Section(path, body))
  {
    var text := SeparatorLine + "# File: " + path + "\n" + SeparatorLine + body + "\n\n";
    assert text == (SeparatorLine + "# File: ") + (path + ("\n" + (SeparatorLine + (body + "\n\n"))));
    ParseFramedByRoundTrip(SeparatorLine, "# File: ", path, body);
  }

  lemma ParseFramedByRoundTrip(separator: string, marker: string, path: string, body: string)
    requires '\n' !in path
    ensures ParseFramedBy(separator, marker,
              (separator + marker) + (path + ("\n" + (separator + (body + "\n\n")))))
      == Some(Section(path, body))
  {
    var tail := body + "\n\n";
    var after := separator + tail;
    var rest := path + ("\n" + after);
    SplitAt(separator + marker, rest);
    LineEndAt(path, "\n" + after);
    SplitAt(path, "\n" + after);
    assert ("\n" + after)[1..] == after;
    SplitAt(separator, tail);
    SplitAt(body, "\n\n");
  }

  lemma SplitAt<T>(a: seq<T>, b: seq<T>)
    ensures a <= a + b && (a + b)[..|a|] == a && (a + b)[|a|..] == b
  {
  }

  /** The placeholder written when reading fails is a single comment line. */
  lemma PlaceholderIsOneLine(read: ReadOutcome)
    requires !read.Text?
    requires read.OtherError? ==> '\n' !in read.description
    ensures var b := Body(read);
      && |b| >= 5 && b[..3] == "# [" && b[|b| - 2..] == "]\n"
      && forall i | 0 <= i < |b| - 1 :: b[i] != '\n'
  {
    var message := if read.OtherError? then "Error reading file: " + read.description else UnreadableMessage;
    assert Body(read) == CommentLine(message);
    if read.OtherError? {
      NoLineBreakConcat("Error reading file: ", read.description);
    } else {
      UnreadableMessageOneLine();
    }
    CommentLineShape(message);
  }

  lemma UnreadableMessageOneLine()
    ensures '\n' !in UnreadableMessage
  {
    var s, t := "Could not read file content ", "(binary or permission denied)";
    assert '\n' !in s by {
      forall i | 0 <= i < |s| ensures s[i] != '\n' { }
    }
    assert '\n' !in t by {
      forall i | 0 <= i < |t| ensures t[i] != '\n' { }
    }
    NoLineBreakConcat(s, t);
  }

  lemma NoLineBreakConcat(s: string, t: string)
    requires '\n' !in s && '\n' !in t
    ensures '\n' !in s + t
  {
  }

  lemma CommentLineShape(message: string)
    requires '\n' !in message
    ensures var b := CommentLine(message);
      && b[..3] == "# [" && b[|b| - 2..] == "]\n"
      && forall i | 0 <= i < |b| - 1 :: b[i] != '\n'
  {
    var b := CommentLine(message);
    forall i | 0 <= i < |b| - 1 ensures b[i] != '\n' {
      if 3 <= i < 3 + |message| {
        assert b[i] == message[i - 3];
      }
    }
  }
}
