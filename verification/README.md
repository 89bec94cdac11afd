# OCR link selection of obsidian-tesseract-ocr, in Dafny

This project models the decision logic of the plugin's one command,
`run-on-all-images`. Given the entries of an Obsidian vault and the text of
its notes, the command decides which image embeds (`![[...]]`) need OCR and
which image each one resolves to. The model has four pure pieces and their
composition:

1. **Filename classification** (`FileNames`). `isImage` and `isMarkdown` take
   the second dot-separated segment of a name (`name.split('.')[1]`). They
   test it by exact, case-sensitive membership in `["jpg", "png", "jpeg"]` or
   `["md"]`. A name with no dot has no second segment, so it is in neither
   class.
2. **Image set** (`Vault`). An entry is kept iff its path contains the
   `imagePath` setting (default `Meta/Attachments`) and its name is an image.
   The filter keeps enumeration order.
3. **Link scan** (`LinkScan`). The global regex `/!\[\[.*\]\]/g` driven by
   `matchAll` is written out as the recursive scan `ScanLinks(s, from)`:
   - `.` does not cross a line terminator, and `.*` is greedy. So a match
     runs from `![[` to the last `]]` on the same line.
   - After a match, scanning resumes at the match's end.
   - The scan is proved to return exactly the non-overlapping, increasing,
     greedy matches, and to cover every position where a match could start.
4. **Resolution and skip test** (`OcrQueue`). Each match resolves to the
   first image whose name occurs in the match text (`Array.find`).
   Unresolved matches are ignored. A resolved match is queued unless the
   whole note contains the match text followed by `<details>`.

`OcrQueue.ToOcr(content, images)` is the per-note result: the
`(match text, image)` pairs sent to OCR. `OcrQueue.RunOnAllImages` is the
whole callback over a vault.

Strings are Dafny strings, whose `char` is a Unicode scalar value. Vault
entries are `TAbstractFile`s. `Vault.recurseChildren` visits folders as well
as files, so the model does not tell them apart. Reading a note is modelled
as a map from path to content. A path missing from the map is a read that
fails, and that note produces no jobs.

Behaviours of `src/main.ts` worth knowing, all modelled as written:
- The extension test is case-sensitive on `split('.')[1]`. So `a.PNG` is not
  an image and `a.png.bak` is one.
- Only the first image that `Array.find` returns is used for a link.
- The skip test is a whole-note substring test for `match + '<details>'`. So
  one annotated occurrence hides every other occurrence of the same link
  text.
- There is no sanitiser, no rewrite and no write-back, and the OCR result is
  discarded.
- Markdown notes are chosen by the second dot-separated segment, not by a
  `.md` suffix.

## Model

| member | source | states |
|---|---|---|
| Text.Includes | src/main.ts:30 | `s.contains(p)` holds iff `p` occurs in `s` at some index; the empty string occurs everywhere |
| Text.Split | src/main.ts:81 | `split` on one separator gives at least one part; no part contains the separator; joining the parts with it gives back the input |
| FileNames.SecondSegment | src/main.ts:81 | `split('.')[1]` is undefined exactly when the name has no dot; when defined, it contains no dot |
| FileNames.SecondSegmentBetweenDots | src/main.ts:81 | the second segment is exactly the text between the first dot and the next dot, or the end of the name |
| FileNames.SecondSegmentOfParts | src/main.ts:81 | for `first.ext` followed by nothing or a dot-led rest, where `first` and `ext` have no dot, the second segment is `ext` |
| FileNames.IsImageCharacterization | src/main.ts:80-86 | `FileNames.IsImage(n)` (`isImage`) holds iff `n` has a dot and the text between its first and second dot is exactly `jpg`, `png` or `jpeg` |
| FileNames.IsMarkdownCharacterization | src/main.ts:87-93 | `FileNames.IsMarkdown(n)` (`isMarkdown`) holds iff `n` has a dot and the text between its first and second dot is exactly `md` |
| FileNames.ClassesAreDisjoint | src/main.ts:80-93 | a name without a dot is neither an image nor markdown, and no name is both |
| FileNames.UpperCaseIsNotImage | src/main.ts:81 | `a.PNG` is not an image, because the comparison is case-sensitive |
| FileNames.DoubleExtensionIsNotImage | src/main.ts:81 | `a.b.png` is not an image, because only the second segment counts |
| FileNames.BackupSuffixIsImage | src/main.ts:81 | `a.png.bak` is an image, because text after the second dot is ignored |
| Vault.ImageSet | src/main.ts:28-33 | the image set keeps the entries passing `Vault.IsVaultImage`, the test at line 30: an entry is in the image set iff it is enumerated, its path contains `imagePath` and its name is an image; the set is no longer than the enumeration |
| Vault.ImageSetAppend | src/main.ts:28-33 | the image set of a concatenated enumeration is the concatenation of the image sets, so enumeration order and multiplicity are kept |
| Vault.DefaultSettingsKeepAttachment | src/main.ts:13-15 | with the default `imagePath` `Meta/Attachments`, an image entry whose path starts with it is kept |
| LinkScan.LineEnd | src/main.ts:37 | the first line terminator at or after `i`, or the end; nothing before it on the line is a terminator |
| LinkScan.LastClose | src/main.ts:37 | the returned `]]` lies within the bounds and no later `]]` does; with no result, there is no `]]` within the bounds |
| LinkScan.LinkAt | src/main.ts:37 | a result is the longest `![[`...`]]` match on one line starting at `i`; no result means no match starts at `i` |
| LinkScan.ScanLinks | src/main.ts:37-40 | every returned span starts at or after `from` and is a greedy match; spans are strictly increasing and disjoint; at most one match per five characters |
| LinkScan.ScanCoversEveryLink | src/main.ts:40 | every position where a match could start lies inside some scanned span |
| LinkScan.MatchTextIsLink | src/main.ts:37 | the text of a match starts with `![[`, ends with `]]` and contains no line terminator |
| LinkScan.SameLineLinksMerge | src/main.ts:37 | a link starting later on the same line as a greedy match ends inside that match, so two links on one line give one match |
| LinkScan.GreedyMatchEndsAtLastClose | src/main.ts:37 | no `]]` starts after a greedy match's closing `]]` and before its line ends |
| LinkScan.TwoLinksOneLineExample | src/main.ts:37-40 | `![[a.png]] ![[b.png]]` scans as one match spanning both links |
| OcrQueue.FindImageFrom | src/main.ts:43-45 | the index found has an image name occurring in the link, and no earlier image does; with no result, no image from `i` on does |
| OcrQueue.Resolve | src/main.ts:43-46 | a result is the earliest image whose name occurs in the link; there is no result iff no image name occurs in the link |
| OcrQueue.QueueLinks | src/main.ts:41-58 | skipping matches for which `OcrQueue.IsAnnotated` (the line 48 test) holds, each queued pair has an image from the set whose name occurs in the text, and the note nowhere contains that text followed by `<details>` |
| OcrQueue.QueueLinksMembership | src/main.ts:41-58 | a pair is queued iff it comes from a match whose text resolves to that image and is nowhere followed by `<details>` |
| OcrQueue.QueueLinksAppend | src/main.ts:41-59 | the queue of concatenated matches is the concatenation of the queues, so matches are handled in order and independently |
| OcrQueue.ToOcr | src/main.ts:37-58 | each queued text is a one-line `![[`...`]]` link resolving to its paired image, and is nowhere followed by `<details>` in the note |
| OcrQueue.ToOcrMembership | src/main.ts:40-58 | a pair is queued for a note iff some scanned match of the note gives that pair |
| OcrQueue.AnnotatedInPlaceIsSkipped | src/main.ts:48 | a match immediately followed by `<details>` is not queued, and neither is any other match with the same text |
| OcrQueue.FullyAnnotatedNoteQueuesNothing | src/main.ts:48-57 | if every match text of a note occurs followed by `<details>`, nothing from that note is queued |
| OcrQueue.SharedLineHidesSecondImage | src/main.ts:37-46 | for `![[a.png]] ![[b.png]]` with images `a.png` and `b.png`, only `a.png` is queued, paired with the whole line |
| OcrQueue.NoteJobs | src/main.ts:41-53 | one job per queued pair of the note, in queue order, each naming the note |
| OcrQueue.CollectJobs | src/main.ts:34-61 | every job comes from an enumerated markdown note that could be read, and is in that note's queue |
| OcrQueue.CollectJobsComplete | src/main.ts:34-61 | every queued pair of every readable markdown note becomes a job |
| OcrQueue.RunOnAllImages | src/main.ts:27-64 | every job's note is enumerated markdown; its image is enumerated, is an image and lies under `imagePath`; its (link, image) pair is in the note's `ToOcr` queue over the vault's image set, so the image is the first one of that set named by the link; the link is a one-line link and is not annotated in the note |
| OcrQueue.RunOnAllImagesComplete | src/main.ts:27-64 | every queued pair of every readable markdown note, using the vault's image set, becomes a job of the command |

## Left out

- `getTextFromImage` (src/main.ts:95-107) is left out. It runs the external `tesseract` process and resolves the full path through the file-system adapter. A job names the image whose `path` would be passed to it.
- `Vault.recurseChildren`, `app.vault.getRoot()` and `adapter.read` are left out. The enumerated entries are a sequence parameter, and note contents are a map from path to text.
- `onload`, `onunload`, `loadSettings` and `saveSettings` are plugin lifecycle and settings storage, so they are left out. Only `DEFAULT_SETTINGS` is modelled, as `Vault.DefaultSettings`.
- The callback fires reads and OCR calls without awaiting them. So the order of jobs across notes is not defined by the source. `RunOnAllImages` lists notes in enumeration order, but no property depends on that order.
- `console.log` diagnostics are left out.
- UTF-16 code units are not modelled. A character outside the Basic Multilingual Plane is one `char` here but two code units in JavaScript, and lone surrogates, which JavaScript strings can hold, cannot be represented. Every delimiter the logic looks for (`.`, `![[`, `]]`, `<details>` and the four line terminators) lies in the Basic Multilingual Plane, so segments, match texts and substring tests agree with JavaScript on well-formed text; only positions and lengths differ.
