/**
 * What is written for one extracted archive member: the base-name table that
 * picks the output file, and the guarded, line-rewritten content.
 */
module Transform {
  import opened Wrappers
  import opened Text

  /** Written first: disables the whole file when the system library is used. */
  const OpeningGuard: string := "#ifndef USE_LIBSQLITE3\n"

  /** Written last: the other branch of the opening conditional. */
  const ClosingGuard: string :=
    "#else // USE_LIBSQLITE3\n // If users really want to link against the system sqlite3 we\n// need to make this file a noop.\n #endif"

  /** The one line that is rewritten. */
  const SqliteInclude: string := "#include \"sqlite3.h\""

  /** The lines of the replacement: the include of the vendored header, then assert disabled under clang. */
  const BindingLines: seq<string> :=
    ["#include \"sqlite3-binding.h\"", "#ifdef __clang__", "#define assert(condition) ((void)0)", "#endif"]

  /** What replaces the include line: those four lines, each ending in a newline. */
  const BindingBlock: string := Terminated(BindingLines)

  /**
   * The output file for an archive member's base name; every other base name is skipped.
   */
  function OutputName(base: string): (r: Option<string>)
    ensures r.Some? <==> base in {"sqlite3mc_amalgamation.c", "sqlite3mc_amalgamation.h", "sqlite3ext.h"}
  {
    match base
    case "sqlite3mc_amalgamation.c" => Some("sqlite3-binding.c")
    case "sqlite3mc_amalgamation.h" => Some("sqlite3-binding.h")
    case "sqlite3ext.h" => Some("sqlite3ext.h")
    case _ => None
  }

  /** Distinct members never share an output file, and only the three fixed files are produced. */
  lemma OutputNameInjective(a: string, b: string)
    requires OutputName(a).Some? && OutputName(a) == OutputName(b)
    ensures a == b
    ensures OutputName(a).value in {"sqlite3-binding.c", "sqlite3-binding.h", "sqlite3ext.h"}
  {
  }

  /** The text handed to Fprintln for one scanned line. */
  function RewriteLine(line: string): string
  {
    if line == SqliteInclude then BindingBlock else line
  }

  /** What one Fprintln call writes: the (rewritten) line and one newline. */
  function Emit(line: string): string
  {
    RewriteLine(line) + "\n"
  }

  /** Everything written between the guards, one Emit per line in order. */
  function Body(lines: seq<string>): string
  {
    if lines == [] then "" else Emit(lines[0]) + Body(lines[1..])
  }

  /** The whole content of an output file made from a member with these lines. */
  function Wrapped(lines: seq<string>): string
  {
    OpeningGuard + Body(lines) + ClosingGuard
  }

  /** The body of a concatenation is the concatenation of the bodies. */
  lemma {:induction false} BodyAppend(a: seq<string>, b: seq<string>)
    ensures Body(a + b) == Body(a) + Body(b)
  {
    if a == [] {
      assert a + b == b;
    } else {
      assert (a + b)[1..] == a[1..] + b;
      BodyAppend(a[1..], b);
    }
  }

  /** Every output starts with the opening guard and ends with the closing one; an empty member gives exactly the two guards. */
  lemma WrappedHasGuards(lines: seq<string>)
    ensures |Wrapped(lines)| >= |OpeningGuard| + |ClosingGuard|
    ensures Wrapped(lines)[..|OpeningGuard|] == OpeningGuard
    ensures Wrapped(lines)[|Wrapped(lines)| - |ClosingGuard|..] == ClosingGuard
    ensures Wrapped([]) == OpeningGuard + ClosingGuard
  {
    PrefixAndSuffix(OpeningGuard, Body(lines), ClosingGuard);
    assert Wrapped([]) == OpeningGuard + Body([]) + ClosingGuard;
    assert Body([]) == "";
    EmptyMiddle(OpeningGuard, ClosingGuard);
  }

  lemma EmptyMiddle(a: string, c: string)
    ensures a + "" + c == a + c
  {
  }

  lemma PrefixAndSuffix(a: string, b: string, c: string)
    ensures |a + b + c| >= |a| + |c|
    ensures (a + b + c)[..|a|] == a
    ensures (a + b + c)[|a + b + c| - |c|..] == c
  {
  }

  /** The lines a reader sees in place of one input line once the output is split at newlines. */
  function ExpandLine(line: string): seq<string>
  {
    if line == SqliteInclude then BindingLines + [""] else [line]
  }

  function ExpandLines(lines: seq<string>): seq<string>
  {
    if lines == [] then [] else ExpandLine(lines[0]) + ExpandLines(lines[1..])
  }

  lemma BindingLinesHaveNoNewline()
    ensures forall i :: 0 <= i < |BindingLines| ==> NoNewline(BindingLines[i])
  {
  }

  /** One written line splits back into what ExpandLine promises. */
  lemma SplitEmitted(line: string, rest: string)
    requires NoNewline(line)
    ensures SplitLines(Emit(line) + rest) == ExpandLine(line) + SplitLines(rest)
  {
    if line == SqliteInclude {
      BindingLinesHaveNoNewline();
      assert Emit(line) + rest == BindingBlock + ("" + "\n" + rest);
      SplitTerminated(BindingLines, "" + "\n" + rest);
      SplitAfterLine("", rest);
    } else {
      assert Emit(line) + rest == line + "\n" + rest;
      SplitAfterLine(line, rest);
    }
  }

  /**
   * Reading the body back line by line gives the input lines in order, with the
   * include line replaced by the block's four lines and a blank line.
   */
  lemma {:induction false} BodySplitsToExpandedLines(lines: seq<string>)
    requires forall i :: 0 <= i < |lines| ==> NoNewline(lines[i])
    ensures SplitLines(Body(lines)) == ExpandLines(lines)
  {
    if lines != [] {
      BodySplitsToExpandedLines(lines[1..]);
      SplitEmitted(lines[0], Body(lines[1..]));
    }
  }

  /** Without the include line, the body reads back as exactly the input lines: nothing else is altered. */
  lemma {:induction false} BodyPassesLinesThrough(lines: seq<string>)
    requires forall i :: 0 <= i < |lines| ==> NoNewline(lines[i]) && lines[i] != SqliteInclude
    ensures SplitLines(Body(lines)) == lines
  {
    BodySplitsToExpandedLines(lines);
    ExpandLinesIdentity(lines);
  }

  lemma {:induction false} ExpandLinesIdentity(lines: seq<string>)
    requires forall i :: 0 <= i < |lines| ==> lines[i] != SqliteInclude
    ensures ExpandLines(lines) == lines
  {
    if lines != [] {
      ExpandLinesIdentity(lines[1..]);
    }
  }

  /** A line that only resembles the include is written unchanged. */
  lemma LookalikeUnchanged(line: string)
    requires line != SqliteInclude
    ensures Emit(line) == line + "\n"
  {
  }

  /** Writing the next line extends the body by that line's output. */
  lemma BodySnoc(lines: seq<string>, i: int)
    requires 0 <= i < |lines|
    ensures Body(lines[..i + 1]) == Body(lines[..i]) + (RewriteLine(lines[i]) + "\n")
  {
    BodyAppend(lines[..i], [lines[i]]);
    assert lines[..i + 1] == lines[..i] + [lines[i]];
  }
}
