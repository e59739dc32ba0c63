# go-sqlite3 amalgamation upgrade tool, modelled in Dafny

`upgrade/upgrade.go` is a small program that vendors SQLite3 Multiple Ciphers into the
go-sqlite3 tree. It looks up the pinned release `v1.3.4` in the GitHub release list and
picks the URL of that release's amalgamation asset. It downloads the zip and extracts
three members: `sqlite3mc_amalgamation.c` becomes `sqlite3-binding.c`,
`sqlite3mc_amalgamation.h` becomes `sqlite3-binding.h`, and `sqlite3ext.h` keeps its name.
Each extracted file is wrapped in `#ifndef USE_LIBSQLITE3` … `#endif` guards, and the line
`#include "sqlite3.h"` is replaced by an include of the vendored header plus a block that
turns `assert` into a no-op under clang.

The model has five modules:

- `Wrappers` (wrappers.dfy): `Option` and `Result`.
- `Text` (text.dfy): the library string operations the program relies on, written out.
  These are `strings.Contains`, Go's `path.Base`, and splitting text at newlines. The
  last one is used only to state what a reader of an output file sees.
- `Resolve` (resolve.dfy): `getAmagationZipUrl`, as a method with the program's two
  loops. It is proved equal to the function `ResolveUrl`, and the first-release,
  no-fallback and last-asset properties are proved about that function.
- `Transform` (transform.dfy): the base-name table and the guarded, line-rewritten
  content (`Wrapped`), with lemmas about guards, the include rewrite and pass-through.
- `Extract` (extract.dfy): the member loop of `main`. An open output file is the class
  `OutputFile`, whose content grows with each write. The working directory is the class
  `Workdir`, a map from file name to content. `Materialize` and `ExtractAll` are
  imperative and proved against `Wrapped` and `Extracted`. `Upgrade` is the whole run.

The code checks less than one might expect:

- The code takes the first release whose tag is `v1.3.4`. It does not fail when several
  releases share that tag.
- Among that release's assets, the last one whose name contains `-amalgamation` wins.
  The code does not fail when several match.
- When no asset matches, the code returns the empty URL rather than failing.
  `download` does not check for it and passes it straight to `http.Get`.

## Model

| member | source | states |
|---|---|---|
| `Text.ContainsIffOccurs` | upgrade/upgrade.go:65 | the substring test is true exactly when the marker occurs at some position of the name |
| `Text.BaseShape` | upgrade/upgrade.go:111 | a base name is never empty, and is "/" or holds no slash |
| `Text.BaseOfEntry` | upgrade/upgrade.go:111 | the base name of `dir/b` and of `b` is `b` when `b` is a non-empty name without slashes |
| `Resolve.FindRelease` | upgrade/upgrade.go:52-57 | gives the index of a release with the tag and no earlier release has it; gives nothing exactly when no release has the tag |
| `Resolve.LastAmalgamation` | upgrade/upgrade.go:63-68 | gives the index of a matching asset with no match after it; gives nothing exactly when no asset matches |
| `Resolve.GetAmalgamationZipUrl` | upgrade/upgrade.go:50-70 | the two loops compute `ResolveUrl`; the result is an error exactly when no release is tagged `v1.3.4` |
| `Resolve.AmalgamationUrlSnoc` | upgrade/upgrade.go:64-67 | visiting one more asset replaces the URL when its name matches and keeps it otherwise |
| `Resolve.AmalgamationUrlNoMatch` | upgrade/upgrade.go:63-70 | when no asset name contains `-amalgamation` the URL is the empty string, not a failure |
| `Resolve.AmalgamationUrlLastWins` | upgrade/upgrade.go:63-68 | the URL is that of the last matching asset; earlier matches are overwritten |
| `Resolve.AmalgamationUrlAppendNoMatch` | upgrade/upgrade.go:63-68 | appending assets that do not match leaves the URL unchanged |
| `Resolve.ResolveSelectsFirst` | upgrade/upgrade.go:52-57 | the assets scanned are those of the first release tagged `v1.3.4` |
| `Resolve.ResolveIgnoresLater` | upgrade/upgrade.go:52-57 | releases listed after a pinned one never change the result, whatever their tags |
| `Resolve.ResolveFailsWithoutVersion` | upgrade/upgrade.go:59-61 | resolution fails exactly when no release carries the tag; there is no fallback |
| `Resolve.LaterAmalgamationChosen` | upgrade/upgrade.go:63-68 | with assets `v1-amalgamation.zip` then `v1-amalgamation-full.zip`, the second one's URL is returned |
| `Transform.OutputName` | upgrade/upgrade.go:111-120 | a base name has an output file exactly when it is one of the three table keys |
| `Transform.OutputNameInjective` | upgrade/upgrade.go:111-119 | two base names with the same output are the same name, and every output is one of the three fixed files |
| `Transform.BodyAppend` | upgrade/upgrade.go:136-149 | the lines are written in input order: the output of a concatenation is the concatenation of the outputs |
| `Transform.WrappedHasGuards` | upgrade/upgrade.go:129-156 | every output starts with the opening guard and ends with the closing guard; an empty member gives exactly the two guards |
| `Transform.SplitEmitted` | upgrade/upgrade.go:138-145 | one written line reads back as itself, or for the include line as the four block lines and a blank line |
| `Transform.BodySplitsToExpandedLines` | upgrade/upgrade.go:136-149 | reading the written lines back gives the input in order, each line once, with only the include line expanded |
| `Transform.BodyPassesLinesThrough` | upgrade/upgrade.go:136-145 | without the include line, reading the output back gives exactly the input lines |
| `Transform.LookalikeUnchanged` | upgrade/upgrade.go:138 | any line other than the exact include is written unchanged followed by one newline |
| `Extract.MemberOutputIgnoresDirectory` | upgrade/upgrade.go:111 | a member is routed by the part of its path after the last slash |
| `Extract.OutputFile.Create` | upgrade/upgrade.go:113 | a created output file is empty |
| `Extract.OutputFile.WriteString` | upgrade/upgrade.go:129 | a write appends its text to the file |
| `Extract.OutputFile.Println` | upgrade/upgrade.go:145 | a line write appends the text and one newline |
| `Extract.Materialize` | upgrade/upgrade.go:129-156 | the file receives exactly the opening guard, each rewritten line with its newline, and the closing guard |
| `Extract.Workdir.Close` | upgrade/upgrade.go:163 | closing a file leaves its content in the directory under its name |
| `Extract.Workdir.ExtractAll` | upgrade/upgrade.go:109-165 | visiting the members in order leaves the directory equal to `Extracted` of the old directory |
| `Extract.Upgrade` | upgrade/upgrade.go:93-167 | a missing version or a failed download ends the run with no file changed; otherwise the directory is the extraction of the archive |
| `Extract.ChosenKeys` | upgrade/upgrade.go:109-120 | an output is chosen exactly when some member is routed to it; skipped members choose nothing |
| `Extract.ChosenLast` | upgrade/upgrade.go:109-120 | an output's lines are those of the last member routed to it |
| `Extract.ExtractedKeys` | upgrade/upgrade.go:109-120 | after extraction a file exists exactly when it existed before or some member's base name maps to it |
| `Extract.ExtractedContent` | upgrade/upgrade.go:109-165 | a written file holds the wrapped lines of the last member routed to it |
| `Extract.ExtractedKeepsOthers` | upgrade/upgrade.go:109-120 | a file no member is routed to keeps its old content |
| `Extract.ExtractIdempotent` | upgrade/upgrade.go:113-117 | extracting the same archive twice leaves the directory as one extraction does |
| `Extract.ChosenOnlyFixedOutputs` | upgrade/upgrade.go:111-119 | only `sqlite3-binding.c`, `sqlite3-binding.h` and `sqlite3ext.h` are ever written |
| `Extract.ExtractedFilesGuarded` | upgrade/upgrade.go:129-156 | every file the extraction writes begins with the opening guard and ends with the closing guard |

## Left out

- The HTTP requests for the release list and the asset (upgrade/upgrade.go:40-44, 78-90) are network I/O. The release list enters the model already parsed. The download together with the zip reader is the function parameter `fetch` of `Upgrade`.
- JSON decoding of the release list (upgrade/upgrade.go:46-48) is a foreign library, and its error is discarded. The model starts from a `seq<Release>`.
- Zip parsing and opening members (upgrade/upgrade.go:103-106, 124-127) are a foreign library. An archive is a `seq<Member>` of names and lines.
- `bufio.Scanner` line splitting (upgrade/upgrade.go:135-136) is library code. Its token-size limit, its dropping of a trailing carriage return and its read errors (line 150) are not modelled; a member is given as its lines.
- `log.Fatal`, `os.Exit`, the progress messages and the banner (upgrade/upgrade.go:94, 99, 164, 167) are process plumbing. A fatal exit is an `Err` result.
- Upgrade: a failed body read in `download` (upgrade/upgrade.go:86-88, 98-100) is only printed, and the following `zip.NewReader` on no data then ends the run. The model folds both into `fetch` returning `None`.
- Upgrade: the program does not check for an empty URL before downloading it. Whatever a download of "" gives is up to `fetch`.
- Materialize: failures of `os.Create`, of writes and of `Close` are not modelled, and neither is the partial file such a failure leaves behind. The same goes for a write error that only stops the loop and is then overwritten by the scanner's error (upgrade/upgrade.go:121-123, 130-134, 146-150, 157-161).
- File contents are Dafny strings (sequences of characters), where the program writes bytes.
