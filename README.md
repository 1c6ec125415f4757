# Playlist fixer and earliest-release picker, modelled in Dafny

This project models two small pieces of a music-library toolset and proves
properties about them.

**Broken playlist entries (`fix_m3u_playlists.py`).** The fixer reads an
M3U playlist and strips every line. It records the references whose resolved
path does not exist, in file order. For each broken entry it:

- ranks every library file by the similarity of its basename to the broken
  file's basename, in a stable sort with the highest score first;
- accepts the top candidate at once when it scores at least 0.9;
- otherwise asks the operator, by a typed path when there are no candidates
  and through a key-driven menu otherwise.

A resolved entry's line is replaced by the match's path relative to the
output directory. When no relative path can be formed, the absolute path is
used instead. The playlist is saved after every fix. An entry the operator
marks as missing adds an `artist - song` line to a missing-songs file. The
artist and song come from the broken filename.

**Earliest release (`src/main.rs`).** `pick_earliest_official_release` works
on MusicBrainz releases:

- it keeps those with a date, or all of them when none has a date;
- it sorts them stably by date string, with a missing date counting as "";
- it returns the first one.

Modules:

- `Optional`: the option type.
- `PyStrings`: Python's `str.strip`, `rsplit(sep, 1)` and `os.path.basename`.
- `ArtistSong`: `parse_artist_and_song` and the missing-songs line.
- `Ranking`: scoring, the stable descending sort and the 0.9 rule.
- `Menu`: `curses_menu` as a state machine over key codes.
- `Resolution`: `find_best_match_with_prompt`.
- `Playlist`: `fix_playlist`.
- `EarliestRelease`: the Rust picker.

Outside effects become parameters:

- **Similarity score.** The `difflib` ratio is a function
  `(string, string) -> real`.
- **Path operations.** pathlib's spelling of an absolute line
  (`str(Path(line))`), resolution of a relative line against the playlist's
  directory, file existence and `os.path.relpath` are the fields of a
  `PathEnv` value.
  `relpath` is partial and returns `None` where Python raises `ValueError`.
- **Operator input.** Two streams: the key codes `getch` returns, and the
  lines `input()` returns. When a stream runs out, the model returns
  `AwaitingInput`, and `fix_playlist` stops with the entries resolved so
  far. The program itself blocks there, or, for `input()` at end of file,
  raises `EOFError`.
- **Missing-songs file.** Appends to it are returned as a sequence of
  lines.
- **Saves.** Each save is the list of lines written at that point: the whole
  playlist as it stood right after the fix that triggered it.

Behaviour of the code worth noting, which the model keeps:

- When there are no candidates and the operator's typed line is blank, the
  code appends to the missing-songs file
  (`fix_m3u_playlists.py:69-70`). The model does the same.
- Every line is stripped on load (`fix_m3u_playlists.py:110`). An entry that
  is skipped, a comment and a blank line are therefore written back as their
  stripped text, not byte for byte.
- The comment above the auto-accept test says 0.95, but the test uses 0.9
  and is inclusive (`fix_m3u_playlists.py:18-19`). The model uses 0.9,
  inclusive.

## Model

| member | source | states |
|---|---|---|
| PyStrings.Strip | fix_m3u_playlists.py:95-96 | The result has no leading or trailing whitespace. It is empty exactly when the input is all whitespace. It is the input with its leading whitespace removed, followed only by whitespace. |
| PyStrings.LastIndexOf | fix_m3u_playlists.py:93 | Returns -1, or an index holding the character; no later index holds it. |
| PyStrings.RSplitOnce | fix_m3u_playlists.py:93 | Returns one part (the whole string) exactly when the separator is absent. Otherwise it returns two parts, split at the last separator, with the separator absent from the second part; the parts and the separator rebuild the input. |
| PyStrings.DropExtension | fix_m3u_playlists.py:96 | Without a "." the text is unchanged. Otherwise the result, a "." and an extension without "." rebuild the input. |
| PyStrings.Basename | fix_m3u_playlists.py:92 | A "/"-free suffix of the path, preceded by "/" when it is shorter than the path. |
| ArtistSong.ParseArtistAndSong | fix_m3u_playlists.py:90-100 | With a "-" in the basename: the artist is the stripped text before the last "-", and the song is the stripped text after it with its extension dropped. Without one: the artist is "Unknown Artist", and the song is the stripped basename with its extension dropped. |
| ArtistSong.ParsedPartsClean | fix_m3u_playlists.py:92-99 | The artist and song are stripped, contain no "/", and the song contains no "-". |
| ArtistSong.MissingSongsLine | fix_m3u_playlists.py:85-86 | Defines the appended line: the parsed artist, " - ", and the parsed song. |
| ArtistSong.MissingSongsLineRoundTrip | fix_m3u_playlists.py:85-86 | Parsing the appended `artist - song` line gives back the same artist and song, when the song has no ".". |
| ArtistSong.ParseFormattedLine | fix_m3u_playlists.py:86 | `artist + " - " + song` parses back to exactly that artist and song. |
| Ranking.InsertByScoreStable | fix_m3u_playlists.py:16 | Inserting one scored candidate keeps each score group in order, the new one first among those with its score. The sort inserts each candidate into the already-sorted later ones, so earlier candidates stay ahead. |
| Ranking.ScoreCandidates | fix_m3u_playlists.py:15 | Defines the comprehension: each candidate, in order, paired with the ratio of its basename against the broken file's basename. |
| Ranking.SortByScoreDesc | fix_m3u_playlists.py:16 | Defines `sorted(..., key=score, reverse=True)` as an insertion sort that places each candidate before the first later one with no higher score. Its result has the input's length. |
| Ranking.SortByScoreDescCorrect | fix_m3u_playlists.py:16 | The sort is a permutation, is non-increasing by score, and keeps the input order within each score. |
| Ranking.RankCandidates | fix_m3u_playlists.py:14-16 | The ranked list is a permutation of the candidates. Each candidate carries the ratio of its own basename against the broken basename. Scores are non-increasing, and ties keep candidate order. |
| Ranking.Decide | fix_m3u_playlists.py:19-71 | Auto-accept holds exactly when the list is non-empty and its top score is >= 0.9, and then names the top candidate. The no-candidates case holds exactly when the list is empty. |
| Ranking.AutoAcceptIsBest | fix_m3u_playlists.py:15-21 | An auto-accepted path is a candidate whose score is >= 0.9 and at least every other candidate's score. |
| Menu.RunMenu | fix_m3u_playlists.py:30-63 | Defines the loop over the keys: it reacts to each key in turn until one leaves, counting the keys read, or waits when the keys run out. |
| Menu.React | fix_m3u_playlists.py:46-63 | One key keeps the row within the rows shown. It never lowers the shown count and raises it by at most 5, only on "v" while below the list length, and never past it. The row moves only by one on up or down. Enter, "s", "m" and "a" leave with the highlighted path, skip, manual entry or missing. Conversely, up and down move the row whenever it has room, "v" shows min(shown + 5, length) rows whenever some are hidden, and any other key changes nothing. |
| Menu.RunMenuOutcome | fix_m3u_playlists.py:30-63 | The menu waits exactly when no key so far was decisive, and then its state is still valid. Otherwise the menu stops at the first decisive key, with the choice that key names. A selected path is one of the ranked paths. |
| Menu.CursesMenu | fix_m3u_playlists.py:23-63 | The key loop, starting at row 0 with 5 shown, ends as `RunMenu` from the start state says. |
| Resolution.NonBlank | fix_m3u_playlists.py:71-77 | `None` exactly for the empty text, otherwise the text itself. |
| Resolution.TypedPath | fix_m3u_playlists.py:68-77 | `None` exactly when the typed line is all whitespace, otherwise the stripped line. |
| Resolution.Resolve | fix_m3u_playlists.py:13-79 | Defines one resolution: rank the candidates, then resolve the ranked list. |
| Resolution.ResolveRanked | fix_m3u_playlists.py:19-79 | Defines the three paths: auto-accept, a typed line when there are no candidates, or the menu followed by a typed line for manual entry. It returns the result, the keys and lines read, and the lines appended. |
| Resolution.ResolveRankedOutcome | fix_m3u_playlists.py:54-77 | With no candidates, the stripped typed line is returned, or None when it is blank, and the missing-songs line is appended exactly then. In the menu, Enter returns the highlighted path, "s" returns None and appends nothing, "a" returns None and appends the line, and "m" returns the stripped typed line or None. The line is appended exactly for a blank typed line with no candidates or for "a". |
| Resolution.ResolveRankedBounds | fix_m3u_playlists.py:19-79 | A resolution reads at most one typed line and no more keys than given. It appends at most the broken path's own missing-songs line, and only when the result is None. A found path is a ranked path (no line read) or the first typed line. |
| Resolution.ResolveBounds | fix_m3u_playlists.py:13-79 | The same bounds, stated over the unranked candidates: a found path is a candidate or the typed line. |
| Resolution.AutoAcceptReadsNothing | fix_m3u_playlists.py:19-21 | When the top score is >= 0.9, the top path is returned, no input is read and nothing is appended. |
| Resolution.FindBestMatchWithPrompt | fix_m3u_playlists.py:13-79 | The method's result, input use and appended lines are those of `Resolve`. A found path is a candidate or the typed line. With no candidates, it returns the stripped typed line and appends the missing-songs line exactly when that line is blank. It appends nothing else, and only when the result is None. |
| Playlist.IsBroken | fix_m3u_playlists.py:113-119 | Defines a broken line: a reference, neither blank nor a "#" comment, whose full path does not exist. |
| Playlist.IsAbsolute | fix_m3u_playlists.py:117 | Defines POSIX `is_absolute()`: the path starts with "/". |
| Playlist.FullPath | fix_m3u_playlists.py:116-117 | Defines the full path: pathlib's spelling of an absolute line, or the line resolved against the playlist's directory. |
| Playlist.Classify | fix_m3u_playlists.py:113-114 | Defines the three kinds of stripped line: blank, "#" comment, reference. |
| Playlist.BrokenEntries | fix_m3u_playlists.py:113-120 | Defines the recorded entries: for each broken reference in line order, its index, text and full path. |
| Playlist.LoadLines | fix_m3u_playlists.py:109-111 | One stored line per input line. |
| Playlist.LoadLinesAt | fix_m3u_playlists.py:110 | Stored line i is input line i, stripped. |
| Playlist.BrokenEntriesSnoc | fix_m3u_playlists.py:113-120 | Reading one more line adds an entry exactly when that line is a reference whose full path does not exist. The entry holds the line's index, its text and its full path. |
| Playlist.BrokenEntriesSound | fix_m3u_playlists.py:113-120 | Every recorded entry is a broken reference at its index, with that line's text and full path, in strictly ascending line order. |
| Playlist.BrokenEntriesComplete | fix_m3u_playlists.py:113-120 | Every broken reference line is recorded. |
| Playlist.FixedLines | fix_m3u_playlists.py:128-134 | The set of changed indices contains the index of every entry processed so far. |
| Playlist.FixedLinesFrom | fix_m3u_playlists.py:128-134 | Every index in that set belongs to an entry processed so far. |
| Playlist.PromptResolverConsumes | fix_m3u_playlists.py:130 | A prompt never reads more input than remains. |
| Playlist.PromptResolverBounds | fix_m3u_playlists.py:60-130 | A prompt finds a candidate or a typed line, and appends only its own entry's missing-songs line. |
| Playlist.ResolveAll | fix_m3u_playlists.py:128-130 | Defines resolving the entries in order, each on the input the earlier ones left. It stops when a resolution would wait for input. |
| Playlist.ResolveEntries | fix_m3u_playlists.py:128-130 | Defines the batch of the loop's calls: `ResolveAll` with `find_best_match_with_prompt` over the fixed candidates and ratio as the resolver. |
| Playlist.ResolveAllLength | fix_m3u_playlists.py:128-130 | Resolving the broken entries in order gives at most one result per entry. There are fewer results exactly when input ran out. |
| Playlist.ResolveAllFound | fix_m3u_playlists.py:128-131 | Every path found for an entry is a candidate or one of the typed lines, stripped. |
| Playlist.ResolveAllMissing | fix_m3u_playlists.py:60-130 | Every missing-songs line comes from an entry already processed. |
| Playlist.ResolveAllCongruent | fix_m3u_playlists.py:128-130 | Two prompts that agree on every input give the same batch. |
| Playlist.PromptBatch | fix_m3u_playlists.py:128-130 | Any prompt that behaves as `find_best_match_with_prompt` gives the batch of `ResolveEntries`. |
| Playlist.ResolveAllNext | fix_m3u_playlists.py:128-130 | The batch from entry k on is entry k's resolution followed by the batch of the rest on the remaining input, or nothing if input ran out. |
| Playlist.Truthy | fix_m3u_playlists.py:131 | Defines Python's `if match:` on a result: some path that is not empty. |
| Playlist.NewText | fix_m3u_playlists.py:132-136 | Defines a fixed line's text: the relative path when `relpath` succeeds, otherwise the match itself. |
| Playlist.Rewritten | fix_m3u_playlists.py:131-136 | Defines the text an entry's line ends up with: the relative (else absolute) match for a truthy result, otherwise the original line. |
| Playlist.CountTruthy | fix_m3u_playlists.py:131-142 | Defines the number of truthy results, which is the number of saves. |
| Playlist.ApplyFixes | fix_m3u_playlists.py:131-136 | Applying the fixes keeps the number of lines. |
| Playlist.ApplyFixesRewrites | fix_m3u_playlists.py:131-136 | After the fixes, each processed entry's line holds its rewrite: the relative path, the absolute match when `relpath` fails, or the original text when the match is empty or None. Every line that is not a processed entry's line is unchanged. |
| Playlist.RewriteNext | fix_m3u_playlists.py:131-136 | Fixing one more entry keeps that rewrite invariant. |
| Playlist.SavesOf | fix_m3u_playlists.py:131-142 | Defines the saves after the first results: one snapshot of the fixed lines per truthy result, in order. There are as many as truthy results. |
| Playlist.SavesOfSnoc | fix_m3u_playlists.py:131-142 | One more result adds a save exactly when the match is truthy, and that save is the lines with this fix applied. |
| Playlist.SavesAreSnapshots | fix_m3u_playlists.py:128-142 | Save j is the whole playlist with the fixes of exactly the results up to and including the (j+1)-th truthy one, which is the result that triggered it. |
| Playlist.SavesLast | fix_m3u_playlists.py:131-142 | The last save equals the lines with every fix so far applied. |
| Playlist.LoadStep | fix_m3u_playlists.py:109-120 | One pass of the load loop: the stripped line is appended to the lines, and an entry with its index, text and full path is appended exactly when the line is a broken reference. |
| Playlist.LoadPlaylist | fix_m3u_playlists.py:107-120 | The load loop yields the stripped lines and the broken entries as specified above. |
| Playlist.PromptFor | fix_m3u_playlists.py:130 | One call of `find_best_match_with_prompt` returns what the resolver `step` gives for that entry and input. |
| Playlist.FixStart | fix_m3u_playlists.py:128 | Before the loop, the loop invariant holds with no results: the whole batch is still to come, the lines are as loaded and there are no saves. |
| Playlist.FixLoopStep | fix_m3u_playlists.py:128-142 | One pass of the fix loop over an entry that does not stall keeps the loop invariant. The batch so far grows by this entry's result, the lines are the fixes applied so far, and the saves are one snapshot per truthy result. |
| Playlist.FixEntry | fix_m3u_playlists.py:128-142 | One pass of the loop: either the prompt waits for input and the batch ends with the results so far, or the loop invariant holds again with one more result, so the lines and the saves now include this entry's fix when its result is truthy. |
| Playlist.FixEach | fix_m3u_playlists.py:128-142 | The loop runs until the last entry or a prompt that waits for input. Its results, missing-songs lines and leftover input follow the batch of resolving the entries in order; its lines and saves are the fixes and snapshots of those results. It ends early only at a stall, where the batch ends too. |
| Playlist.FixDone | fix_m3u_playlists.py:128-144 | Where the loop ends, after the last entry or at a stall, the results and missing-songs lines are the batch's, the lines are the fixes applied, the saves are the snapshots, and the last save is the final lines. |
| Playlist.ResolveAndSave | fix_m3u_playlists.py:128-142 | The fix loop's results, missing-songs lines and early stop are exactly the batch of resolving the entries in order on the input. The lines are the fixes applied to the loaded lines. The saves are exactly one snapshot of the whole playlist per truthy match, taken right after that fix; the last save is the final lines. |
| Playlist.FixPlaylist | fix_m3u_playlists.py:102-144 | The broken entries are those of the stripped lines, and the results are those of the prompts. Each processed entry's line is rewritten and every other line is as loaded; blank and comment lines never change. The saves are exactly one snapshot of the whole playlist per fix, taken right after it, and the last save equals the returned lines. |
| EarliestRelease.DateKey | src/main.rs:48 | Defines the sort key: the date, or "" when there is none. |
| EarliestRelease.LexLe | src/main.rs:48 | Defines `Ord` on `String`: lexicographic order, with a proper prefix first. |
| EarliestRelease.LexLeTotal | src/main.rs:48 | String order is total. |
| EarliestRelease.LexLeTransitive | src/main.rs:48 | String order is transitive. |
| EarliestRelease.LexLeAntisymmetric | src/main.rs:48 | String order is antisymmetric. |
| EarliestRelease.KnownDate | src/main.rs:38-42 | The filtered releases are exactly the input releases that have a date, and there are no more of them than inputs. |
| EarliestRelease.Pool | src/main.rs:44-46 | Defines the pool: the dated releases, or all releases when none is dated. |
| EarliestRelease.KnownDateFirst | src/main.rs:38-42 | The filter keeps input order: the first filtered release with a given key has no dated release with that key before it in the input. |
| EarliestRelease.FirstInInput | src/main.rs:38-49 | The least pool member that is first in pool order is also first in input order: every pool member before it in the input has a strictly greater key. |
| EarliestRelease.SortByDateKey | src/main.rs:48 | Defines the stable sort by date key as an insertion sort that places each release after every earlier one with no greater key. |
| EarliestRelease.InsertByKeyStable | src/main.rs:48 | Inserting a release keeps every key's releases in order, the new one last among its key. |
| EarliestRelease.SortByDateKeyCorrect | src/main.rs:48 | The sort by date key is a permutation, is sorted, and keeps the input order among equal keys. |
| EarliestRelease.WithKeyHead | src/main.rs:48-49 | The first release with a given key is at the first index holding that key. |
| EarliestRelease.SortedHeadIsFirstMinimal | src/main.rs:48-49 | The head of the sort has a key no greater than any release's key. It sits at an input index before which every key is strictly greater. |
| EarliestRelease.InsertByKeyPermutes | src/main.rs:48 | Insertion adds exactly the inserted release. |
| EarliestRelease.InsertByKeySorted | src/main.rs:48 | Insertion into a sorted list keeps it sorted. |
| EarliestRelease.InsertAt | src/main.rs:48 | Insertion places the release right before the suffix of strictly greater keys. |
| EarliestRelease.InsertLast | src/main.rs:48 | One in-place insertion step turns the array prefix into the functional insertion and leaves the rest of the array unchanged. |
| EarliestRelease.SortReleasesByDate | src/main.rs:48 | The in-place sort leaves the array equal to the stable sort by date key of its old contents. |
| EarliestRelease.EarliestOfPool | src/main.rs:38-49 | The head of the sorted pool is an input release, dated whenever any release is dated. Its key is at most every pool member's key. Every pool member before it, in pool order and in input order, has a strictly greater key. |
| EarliestRelease.PickEarliestOfficialRelease | src/main.rs:37-50 | None exactly when there are no releases. The pick is an input release, and it has a date whenever any release has one. Its key is at most every pool member's key. Every pool member before it, in pool order and in input order, has a strictly greater key. |

## Left out

- Curses rendering (`clear`, `addstr`, `refresh`, `curs_set`, `wrapper`, `endwin`) and every printed message, including the broken/total count at `fix_m3u_playlists.py:122-123`. Their text is not modelled.
- Menu.CursesMenu assumes a terminal tall enough for the menu, at least 8 rows plus the rows shown. On a shorter window the `addstr` calls at `fix_m3u_playlists.py:36-43` raise `curses.error` and end the program; the model has no such failure.
- Resolution.FindBestMatchWithPrompt treats end of input on `input()` (`fix_m3u_playlists.py:68, 76`) like blocking: it returns `AwaitingInput`, where the program raises `EOFError` and ends.
- `difflib.SequenceMatcher.ratio` is a parameter, because it is a floating-point library routine. No property of its values is assumed beyond being a `real`.
- pathlib's normalisation of an absolute line (`str(Path(line))`), path resolution, `Path.exists` and `os.path.relpath` are fields of `PathEnv`, because they depend on the file system or on pathlib's parsing. An absolute line is one starting with "/".
- File reading and writing and the missing-songs file append are not modelled as I/O. A save is a snapshot of the lines, without the "\n" the code adds. Appends are lines in a returned sequence.
- Blocking on input is not modelled: running out of keys or typed lines returns `AwaitingInput`, and `fix_playlist` stops there with the entries resolved so far.
- The "MANUAL_ENTRY" string the menu returns is a `ManualEntry` choice. A ranked path equal to that literal is therefore not confused with the manual-entry request.
- `get_all_music_files`, `main`, and the per-playlist skip prompt (`fix_m3u_playlists.py:10-11, 149-180`) are left out. They are directory walking and I/O orchestration.
- In `src/main.rs`, `get_tracks_for_release`, `get_tracks_by_album` and `main` are left out. They are HTTP, JSON and network calls.
- Text encoding is not modelled: strings are sequences of characters. Rust's `String` order is modelled as code-point order, which agrees with UTF-8 byte order.
- EarliestRelease.SortReleasesByDate: `sort_by_key` is a library merge sort. It is modelled as an insertion sort; every stable sort gives the same order.
- Menu.CursesMenu requires a non-empty ranked list, because the menu only runs after the empty case has been handled.
