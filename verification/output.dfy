/** The report file, opened once with mode 'w' and only ever appended to. */
module Output {
  class Sink {
    /** The arguments of every `write` call so far, in order. */
    var written: seq<string>

    /** Opening with mode 'w' truncates: the file starts empty. */
    constructor ()
      ensures written == []
    {
      written := [];
    }

    /** `output_file.write(s)`: appends, never rewrites; the file's text is
        `Concat(written)` (see `ConcatAppend`). */
    method Write(s: string)
      modifies this
      ensures written == old(written) + [s]
    {
      written := written + [s];
    }
  }
}
