/**
 * The extraction loop of main and the run as a whole: resolve the release,
 * fetch the archive, and write one guarded output file per interesting member
 * into the working directory.
 */
module Extract {
  import opened Wrappers
  import opened Text
  import opened Resolve
  import opened Transform

  /** One file inside the downloaded archive: its path and the lines read from it. */
  datatype Member = Member(name: string, lines: seq<string>)

  /** Why a run ends without extracting. */
  datatype UpgradeError = Unresolved(cause: ResolveError) | ArchiveUnavailable(url: string)

  /** The output file a member is written to, decided by its base name. */
  function MemberOutput(m: Member): Option<string>
  {
    OutputName(Base(m.name))
  }

  /** A member stored under a directory is routed by the part after the last slash. */
  lemma MemberOutputIgnoresDirectory(dir: string, base: string, lines: seq<string>)
    requires base != [] && NoSlash(base)
    ensures MemberOutput(Member(dir + "/" + base, lines)) == OutputName(base)
    ensures MemberOutput(Member(base, lines)) == OutputName(base)
  {
    BaseOfEntry(dir, base);
  }

  /** For each output name `route` gives, the lines of the last member routed to it. */
  function ChosenBy(route: Member -> Option<string>, members: seq<Member>): map<string, seq<string>>
    decreases |members|
  {
    if members == [] then map[]
    else
      var before := ChosenBy(route, members[..|members| - 1]);
      var m := members[|members| - 1];
      match route(m)
      case None => before
      case Some(out) => before[out := m.lines]
  }

  /** For each output file, the lines of the last member routed to it by its base name. */
  function Chosen(members: seq<Member>): map<string, seq<string>>
  {
    ChosenBy(MemberOutput, members)
  }

  /**
   * The directory after extracting `members` in order, starting from `files`:
   * each chosen output holds its member's wrapped lines, every other file is kept.
   */
  function Extracted(files: map<string, string>, members: seq<Member>): map<string, string>
  {
    Overlay(files, Chosen(members))
  }

  /** `files` with each chosen output replaced by (or added as) its wrapped lines. */
  function Overlay(files: map<string, string>, chosen: map<string, seq<string>>): map<string, string>
  {
    map name | name in files.Keys + chosen.Keys :: if name in chosen then Wrapped(chosen[name]) else files[name]
  }

  /** An output file opened for writing: its content grows with every write. */
  class OutputFile {
    const name: string
    var content: string

    /** Creating a file gives an empty one, truncating whatever was there. */
    constructor Create(name: string)
      ensures this.name == name && content == ""
    {
      this.name := name;
      content := "";
    }

    /** Appends `s`. */
    method WriteString(s: string)
      modifies this
      ensures content == old(content) + s
    {
      content := content + s;
    }

    /** Appends `text` and one newline. */
    method Println(text: string)
      modifies this
      ensures content == old(content) + (text + "\n")
    {
      content := content + (text + "\n");
    }
  }

  /** Writes one member: opening guard, each line (the include rewritten) with its newline, closing guard. */
  method Materialize(f: OutputFile, lines: seq<string>)
    modifies f
    ensures f.content == old(f.content) + Wrapped(lines)
  {
    ghost var start := f.content;
    f.WriteString(OpeningGuard);
    for i := 0 to |lines|
      invariant f.content == start + (OpeningGuard + Body(lines[..i]))
    {
      var text := lines[i];
      if text == SqliteInclude {
        text := BindingBlock;
      }
      assert text == RewriteLine(lines[i]);
      BodySnoc(lines, i);
      f.Println(text);
      Associative(start, OpeningGuard + Body(lines[..i]), text + "\n");
      Associative(OpeningGuard, Body(lines[..i]), text + "\n");
    }
    assert lines[..|lines|] == lines;
    f.WriteString(ClosingGuard);
    Associative(start, OpeningGuard + Body(lines), ClosingGuard);
  }

  /** The working directory the tool writes into. */
  class Workdir {
    /** Every file in the directory, by name, with its content. */
    var files: map<string, string>

    constructor (files: map<string, string>)
      ensures this.files == files
    {
      this.files := files;
    }

    /** Closing a file leaves its content in the directory under its name. */
    method Close(f: OutputFile)
      modifies this
      ensures files == old(files)[f.name := f.content]
    {
      files := files[f.name := f.content];
    }

    /** Visits the members in archive order, skipping every one the table does not name. */
    method ExtractAll(members: seq<Member>)
      modifies this
      ensures files == Extracted(old(files), members)
    {
      for i := 0 to |members|
        invariant files == Overlay(old(files), Chosen(members[..i]))
      {
        ChosenSnoc(MemberOutput, members, i);
        var zf := members[i];
        var out := OutputName(Base(zf.name));
        if out.None? {
          continue;
        }
        var f := new OutputFile.Create(out.value);
        Materialize(f, zf.lines);
        assert f.content == "" + Wrapped(zf.lines) == Wrapped(zf.lines);
        OverlayUpdate(old(files), Chosen(members[..i]), out.value, zf.lines);
        Close(f);
      }
      assert members[..|members|] == members;
    }
  }

  /**
   * One run of the tool. `fetch` stands for downloading the URL and opening it as
   * an archive; None is any failure of either.
   */
  method Upgrade(dir: Workdir, items: seq<Release>, fetch: string -> Option<seq<Member>>)
    returns (r: Result<(), UpgradeError>)
    modifies dir
    ensures ResolveUrl(items).Err? ==> r == Err(Unresolved(VersionNotFound)) && dir.files == old(dir.files)
    ensures ResolveUrl(items).Ok? && fetch(ResolveUrl(items).value).None? ==>
              r == Err(ArchiveUnavailable(ResolveUrl(items).value)) && dir.files == old(dir.files)
    ensures ResolveUrl(items).Ok? && fetch(ResolveUrl(items).value).Some? ==>
              r == Ok(()) && dir.files == Extracted(old(dir.files), fetch(ResolveUrl(items).value).value)
  {
    var url := GetAmalgamationZipUrl(items);
    if url.Err? {
      return Err(Unresolved(url.error));
    }
    var archive := fetch(url.value);
    if archive.None? {
      return Err(ArchiveUnavailable(url.value));
    }
    dir.ExtractAll(archive.value);
    return Ok(());
  }

  /** Member `i` is the last one `route` sends to `out`. */
  predicate LastWriter(route: Member -> Option<string>, members: seq<Member>, out: string, i: int)
  {
    0 <= i < |members| && route(members[i]) == Some(out)
    && forall j :: i < j < |members| ==> route(members[j]) != Some(out)
  }

  /** Some member among `members` is sent to `out`. */
  predicate Routed(route: Member -> Option<string>, members: seq<Member>, out: string)
  {
    exists i :: 0 <= i < |members| && route(members[i]) == Some(out)
  }

  lemma RoutedStep(route: Member -> Option<string>, members: seq<Member>, out: string)
    requires members != []
    ensures Routed(route, members, out) <==>
              Routed(route, members[..|members| - 1], out) || route(members[|members| - 1]) == Some(out)
  {
    var n := |members| - 1;
    if Routed(route, members[..n], out) {
      var i :| 0 <= i < n && route(members[..n][i]) == Some(out);
      assert route(members[i]) == Some(out);
    }
    if Routed(route, members, out) {
      var i :| 0 <= i < |members| && route(members[i]) == Some(out);
      if i < n {
        assert route(members[..n][i]) == Some(out);
      }
    }
  }

  /** An output is chosen exactly when some member is routed to it; a skipped member chooses nothing. */
  lemma {:induction false} ChosenKeys(route: Member -> Option<string>, members: seq<Member>, out: string)
    ensures out in ChosenBy(route, members) <==> Routed(route, members, out)
    decreases |members|
  {
    if members != [] {
      ChosenKeys(route, members[..|members| - 1], out);
      RoutedStep(route, members, out);
    }
  }

  /** The lines chosen for an output are those of the last member routed to it. */
  lemma {:induction false} ChosenLast(route: Member -> Option<string>, members: seq<Member>, out: string, i: int)
    requires LastWriter(route, members, out, i)
    ensures out in ChosenBy(route, members) && ChosenBy(route, members)[out] == members[i].lines
    decreases |members|
  {
    var n := |members| - 1;
    if i < n {
      var front := members[..n];
      assert forall j :: i < j < n ==> front[j] == members[j];
      assert LastWriter(route, front, out, i);
      ChosenLast(route, front, out, i);
    }
  }

  /** The last member routed to `out`, given that member `k` is routed there. */
  lemma {:induction false} LastRouted(route: Member -> Option<string>, members: seq<Member>, out: string, k: int)
    returns (i: int)
    requires 0 <= k < |members| && route(members[k]) == Some(out)
    ensures LastWriter(route, members, out, i)
    decreases |members| - k
  {
    if exists j :: k < j < |members| && route(members[j]) == Some(out) {
      var j :| k < j < |members| && route(members[j]) == Some(out);
      i := LastRouted(route, members, out, j);
    } else {
      i := k;
    }
  }

  /** Routing the members up to `i` and then member `i` is routing the members up to `i + 1`. */
  lemma ChosenSnoc(route: Member -> Option<string>, members: seq<Member>, i: int)
    requires 0 <= i < |members|
    ensures route(members[i]).None? ==> ChosenBy(route, members[..i + 1]) == ChosenBy(route, members[..i])
    ensures route(members[i]).Some? ==>
              ChosenBy(route, members[..i + 1])
              == ChosenBy(route, members[..i])[route(members[i]).value := members[i].lines]
  {
    assert members[..i + 1][..i] == members[..i];
  }

  /** Choosing new lines for one output rewrites exactly that file. */
  lemma OverlayUpdate(files: map<string, string>, chosen: map<string, seq<string>>, out: string, lines: seq<string>)
    ensures Overlay(files, chosen[out := lines]) == Overlay(files, chosen)[out := Wrapped(lines)]
  {
  }

  /** After extraction a file exists exactly when it existed before or some member is routed to it. */
  lemma ExtractedKeys(files: map<string, string>, members: seq<Member>, out: string)
    ensures out in Extracted(files, members) <==>
              out in files || exists i :: 0 <= i < |members| && MemberOutput(members[i]) == Some(out)
  {
    ChosenKeys(MemberOutput, members, out);
  }

  /** A written file holds the wrapped lines of the last member routed to it. */
  lemma ExtractedContent(files: map<string, string>, members: seq<Member>, out: string, i: int)
    requires LastWriter(MemberOutput, members, out, i)
    ensures out in Extracted(files, members)
    ensures Extracted(files, members)[out] == Wrapped(members[i].lines)
  {
    ChosenLast(MemberOutput, members, out, i);
  }

  /** A file no member is routed to keeps its old content. */
  lemma ExtractedKeepsOthers(files: map<string, string>, members: seq<Member>, out: string)
    requires out in files
    requires forall i :: 0 <= i < |members| ==> MemberOutput(members[i]) != Some(out)
    ensures out in Extracted(files, members) && Extracted(files, members)[out] == files[out]
  {
    ChosenKeys(MemberOutput, members, out);
  }

  /** Running the extraction again over the same archive leaves the directory as it is. */
  lemma ExtractIdempotent(files: map<string, string>, members: seq<Member>)
    ensures Extracted(Extracted(files, members), members) == Extracted(files, members)
  {
  }

  /** Only the three fixed output files are ever written. */
  lemma ChosenOnlyFixedOutputs(members: seq<Member>, out: string)
    requires out in Chosen(members)
    ensures out in {"sqlite3-binding.c", "sqlite3-binding.h", "sqlite3ext.h"}
  {
    ChosenKeys(MemberOutput, members, out);
    var k :| 0 <= k < |members| && MemberOutput(members[k]) == Some(out);
    OutputNameInjective(Base(members[k].name), Base(members[k].name));
  }

  /** Every file the extraction writes begins with the opening guard and ends with the closing one. */
  lemma ExtractedFilesGuarded(files: map<string, string>, members: seq<Member>, out: string, k: int)
    requires 0 <= k < |members| && MemberOutput(members[k]) == Some(out)
    ensures out in Extracted(files, members)
    ensures |Extracted(files, members)[out]| >= |OpeningGuard| + |ClosingGuard|
    ensures Extracted(files, members)[out][..|OpeningGuard|] == OpeningGuard
    ensures Extracted(files, members)[out][|Extracted(files, members)[out]| - |ClosingGuard|..] == ClosingGuard
  {
    var i := LastRouted(MemberOutput, members, out, k);
    ExtractedContent(files, members, out, i);
    WrappedHasGuards(members[i].lines);
  }
}
