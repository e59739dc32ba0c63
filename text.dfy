/**
 * The three library string operations the upgrade tool relies on, written out:
 * substring search (Go's strings.Contains), the last element of a slash-separated
 * path (Go's path.Base), and splitting text into newline-terminated lines.
 */
module Text {

  /** `sub` occurs in `s` starting at index `i`. */
  predicate OccursAt(s: string, sub: string, i: int)
  {
    0 <= i && i + |sub| <= |s| && s[i..i + |sub|] == sub
  }

  /** Substring containment, as Go's strings.Contains; the empty string occurs everywhere. */
  function Contains(s: string, sub: string): bool
    decreases |s|
  {
    if |s| < |sub| then false
    else if s[..|sub|] == sub then true
    else Contains(s[1..], sub)
  }

  /** Contains answers exactly whether there is a position at which `sub` occurs. */
  lemma {:induction false} ContainsIffOccurs(s: string, sub: string)
    ensures Contains(s, sub) <==> exists i :: OccursAt(s, sub, i)
    decreases |s|
  {
    if |s| < |sub| {
      assert forall i :: !OccursAt(s, sub, i);
    } else if s[..|sub|] == sub {
      assert OccursAt(s, sub, 0);
    } else {
      ContainsIffOccurs(s[1..], sub);
      forall i | OccursAt(s[1..], sub, i)
        ensures OccursAt(s, sub, i + 1)
      {
        assert s[1..][i..i + |sub|] == s[i + 1..i + 1 + |sub|];
      }
      forall i | OccursAt(s, sub, i)
        ensures OccursAt(s[1..], sub, i - 1)
      {
        assert i != 0;
        assert s[1..][i - 1..i - 1 + |sub|] == s[i..i + |sub|];
      }
    }
  }

  /** `s` holds no slash. */
  predicate NoSlash(s: string)
  {
    forall i :: 0 <= i < |s| ==> s[i] != '/'
  }

  /** Length of `p[..k]` once its trailing slashes are dropped. */
  function TrimmedLength(p: string, k: nat): (n: nat)
    requires k <= |p|
    ensures n <= k
  {
    if k > 0 && p[k - 1] == '/' then TrimmedLength(p, k - 1) else k
  }

  /** Where the last element of `p[..k]` starts: just after its last slash, or 0. */
  function ElementStart(p: string, k: nat): (n: nat)
    requires k <= |p|
    ensures n <= k
  {
    if k == 0 || p[k - 1] == '/' then k else ElementStart(p, k - 1)
  }

  /**
   * The last element of a slash-separated path, as Go's path.Base: trailing
   * slashes are dropped first; the empty path gives "." and a path made only of
   * slashes gives "/".
   */
  function Base(p: string): string
  {
    if p == [] then "."
    else
      var end := TrimmedLength(p, |p|);
      var start := ElementStart(p, end);
      if start == end then "/" else p[start..end]
  }

  /** The last element holds no slash, and a slash (or the start) comes just before it. */
  lemma {:induction false} ElementStartSpec(p: string, k: nat)
    requires k <= |p|
    ensures forall j :: ElementStart(p, k) <= j < k ==> p[j] != '/'
    ensures ElementStart(p, k) == 0 || p[ElementStart(p, k) - 1] == '/'
  {
    if k > 0 && p[k - 1] != '/' {
      ElementStartSpec(p, k - 1);
    }
  }

  /** A base name is never empty, and is "/" or free of slashes. */
  lemma BaseShape(p: string)
    ensures Base(p) != []
    ensures Base(p) == "/" || NoSlash(Base(p))
  {
    if p != [] {
      ElementStartSpec(p, TrimmedLength(p, |p|));
    }
  }

  /** Scanning back from anywhere inside a slash-free element stops just after the slash before it. */
  lemma {:induction false} ElementStartOfEntry(dir: string, b: string, k: nat)
    requires NoSlash(b) && |dir| + 1 <= k <= |dir| + 1 + |b|
    ensures ElementStart(dir + "/" + b, k) == |dir| + 1
    decreases k
  {
    var p := dir + "/" + b;
    if k > |dir| + 1 {
      assert p[k - 1] == b[k - 1 - |dir| - 1];
      ElementStartOfEntry(dir, b, k - 1);
    } else {
      assert p[k - 1] == '/';
    }
  }

  /** An archive entry's base name is the part after its last slash, with or without a directory. */
  lemma BaseOfEntry(dir: string, b: string)
    requires b != [] && NoSlash(b)
    ensures Base(b) == b
    ensures Base(dir + "/" + b) == b
  {
    var p := dir + "/" + b;
    assert p[|p| - 1] == b[|b| - 1];
    assert TrimmedLength(p, |p|) == |p|;
    ElementStartOfEntry(dir, b, |p|);
    assert p[|dir| + 1..] == b;
    assert TrimmedLength(b, |b|) == |b|;
    BaseOfBareName(b, |b|);
  }

  lemma {:induction false} BaseOfBareName(b: string, k: nat)
    requires NoSlash(b) && k <= |b|
    ensures ElementStart(b, k) == 0
  {
    if k > 0 {
      BaseOfBareName(b, k - 1);
    }
  }

  /** `s` holds no newline character. */
  predicate NoNewline(s: string)
  {
    forall i :: 0 <= i < |s| ==> s[i] != '\n'
  }

  /** Index of the first newline in `s`, or |s| when there is none. */
  function IndexOfNewline(s: string): (i: nat)
    ensures i <= |s|
    ensures i < |s| ==> s[i] == '\n'
    ensures forall j :: 0 <= j < i ==> s[j] != '\n'
  {
    if s == [] || s[0] == '\n' then 0 else 1 + IndexOfNewline(s[1..])
  }

  /**
   * Splits text into its lines: each '\n' ends a line and is dropped; a final
   * piece with no newline after it is a line too.
   */
  function SplitLines(s: string): seq<string>
    decreases |s|
  {
    if s == [] then []
    else
      var i := IndexOfNewline(s);
      if i == |s| then [s] else [s[..i]] + SplitLines(s[i + 1..])
  }

  /** A line followed by its newline splits off as exactly that line. */
  lemma SplitAfterLine(line: string, rest: string)
    requires NoNewline(line)
    ensures SplitLines(line + "\n" + rest) == [line] + SplitLines(rest)
  {
    var s := line + "\n" + rest;
    assert s[|line|] == '\n';
    assert IndexOfNewline(s) == |line|;
    assert s[..|line|] == line;
    assert s[|line| + 1..] == rest;
  }

  /** The lines written one after another, each followed by one newline. */
  function Terminated(lines: seq<string>): string
  {
    if lines == [] then "" else lines[0] + "\n" + Terminated(lines[1..])
  }

  /** Newline-terminated lines split back into exactly those lines. */
  lemma {:induction false} SplitTerminated(lines: seq<string>, rest: string)
    requires forall i :: 0 <= i < |lines| ==> NoNewline(lines[i])
    ensures SplitLines(Terminated(lines) + rest) == lines + SplitLines(rest)
  {
    if lines == [] {
      assert Terminated(lines) + rest == rest;
    } else {
      SplitTerminated(lines[1..], rest);
      SplitTerminatedStep(lines, rest);
    }
  }

  /** The inductive step of SplitTerminated: the first line splits off, the rest as before. */
  lemma SplitTerminatedStep(lines: seq<string>, rest: string)
    requires lines != [] && NoNewline(lines[0])
    requires SplitLines(Terminated(lines[1..]) + rest) == lines[1..] + SplitLines(rest)
    ensures SplitLines(Terminated(lines) + rest) == lines + SplitLines(rest)
  {
    var t := Terminated(lines[1..]);
    calc {
      SplitLines(Terminated(lines) + rest);
      SplitLines(lines[0] + "\n" + t + rest);
      { SplitLineThen(lines[0], t, rest); }
      [lines[0]] + SplitLines(t + rest);
      [lines[0]] + (lines[1..] + SplitLines(rest));
      { Associative([lines[0]], lines[1..], SplitLines(rest)); }
      ([lines[0]] + lines[1..]) + SplitLines(rest);
      { assert [lines[0]] + lines[1..] == lines; }
      lines + SplitLines(rest);
    }
  }

  /** The first of several newline-terminated pieces splits off first. */
  lemma SplitLineThen(line: string, more: string, rest: string)
    requires NoNewline(line)
    ensures SplitLines(line + "\n" + more + rest) == [line] + SplitLines(more + rest)
  {
    Associative(line + "\n", more, rest);
    SplitAfterLine(line, more + rest);
  }

  lemma Associative<T>(a: seq<T>, b: seq<T>, c: seq<T>)
    ensures (a + b) + c == a + (b + c)
  {
  }
}
