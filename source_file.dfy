/**
 * The Triangle scanner's source cursor: reads the input one byte at a time,
 * maps the end of input to EOT, and counts the lines consumed.
 *
 * The buffered input stream is the byte sequence `input` read at `pos`.
 */
module SyntacticAnalyzer {
  import opened Basics

  const EOL: char := '\n'
  const EOT: char := '\0'

  /** The number of end-of-line bytes in `s`. */
  function Lines(s: seq<byte>): (n: nat)
    ensures n <= |s|
  {
    if s == [] then 0 else (if s[0] == 10 then 1 else 0) + Lines(s[1..])
  }

  /** Consuming one more byte adds one line exactly when it is an EOL. */
  lemma {:induction false} LinesSnoc(s: seq<byte>, b: byte)
    ensures Lines(s + [b]) == Lines(s) + (if b == 10 then 1 else 0)
  {
    if s != [] {
      assert (s + [b])[1..] == s[1..] + [b];
      LinesSnoc(s[1..], b);
    }
  }

  /** The character the next read delivers: the byte at `pos`, or EOT at the
      end of input. */
  function NextChar(input: seq<byte>, pos: nat): (c: char)
    requires pos <= |input|
    ensures pos == |input| ==> c == EOT
    ensures pos < |input| ==> c as int == input[pos] as int
  {
    if pos < |input| then (input[pos] as int) as char else EOT
  }

  class SourceFile {
    /** False when the file could not be opened (the stream reference is null). */
    var isOpen: bool
    var input: seq<byte>
    var pos: nat
    var currentLine: int

    ghost predicate Valid()
      reads this
    {
      && pos <= |input|
      && (isOpen ==> currentLine == 1 + Lines(input[..pos]))
      && (!isOpen ==> currentLine == 0 && input == [] && pos == 0)
    }

    /** Opening a named file; `contents` is None when opening fails. */
    constructor (contents: Option<seq<byte>>)
      ensures Valid()
      ensures isOpen == contents.Some? && pos == 0
      ensures contents.Some? ==> input == contents.value && currentLine == 1
      ensures contents.None? ==> currentLine == 0
    {
      if contents.Some? {
        isOpen, input, pos := true, contents.value, 0;
        currentLine := 1;
      } else {
        isOpen, input, pos := false, [], 0;
        currentLine := 0;
      }
    }

    /** Reading from an in-memory snippet, given as its encoded bytes; `snippet`
        is None for a null string, whose encoding fails. */
    constructor FromSnippet(snippet: Option<seq<byte>>)
      ensures Valid()
      ensures isOpen == snippet.Some? && pos == 0
      ensures snippet.Some? ==> input == snippet.value && currentLine == 1
      ensures snippet.None? ==> input == [] && currentLine == 0
    {
      if snippet.Some? {
        isOpen, input, pos := true, snippet.value, 0;
        currentLine := 1;
      } else {
        isOpen, input, pos := false, [], 0;
        currentLine := 0;
      }
    }

    method GetSource() returns (c: char)
      requires Valid() && isOpen
      modifies this
      ensures Valid() && isOpen && input == old(input)
      ensures c == NextChar(input, old(pos))
      ensures pos == if old(pos) < |input| then old(pos) + 1 else old(pos)
      ensures currentLine == old(currentLine) + (if old(pos) < |input| && c == EOL then 1 else 0)
    {
      if pos == |input| {
        c := EOT;
      } else {
        var b := input[pos];
        LinesSnoc(input[..pos], b);
        assert input[..pos + 1] == input[..pos] + [b];
        pos := pos + 1;
        if b == 10 {
          currentLine := currentLine + 1;
        }
        c := (b as int) as char;
      }
    }

    method GetProbe() returns (c: char)
      requires Valid() && isOpen
      ensures c == NextChar(input, pos)
    {
      if pos == |input| {
        c := EOT;
      } else {
        c := (input[pos] as int) as char;
      }
    }

    method GetCurrentLineNumber() returns (line: int)
      requires Valid()
      ensures line == currentLine
      ensures isOpen ==> line == 1 + Lines(input[..pos])
      ensures !isOpen ==> line == 0
    {
      line := currentLine;
    }
  }
}
