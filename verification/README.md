# Archive page synchronisation, modelled in Dafny

This project models the page-editing core of the archive uploader. When a
scanned archival file is sent to Wikimedia Commons, the uploader records it
on Wikisource at four levels: the sprava (file) page, the opys (inventory)
page, the fond page and the archive page. Each of these is a wiki page whose
text is edited locally, with no I/O, before it is saved. The model covers:

- **The table document model** (`WikiTable`, `TableEdit`, `NaturalOrder`,
  `Listing`). A page is split around its first wikitable into the text
  before it, the start line, the header line, the rows and the text after it.
  The page can be rebuilt from these parts. A new row is added once, in order
  of its id. A page without a usable table gets a fresh table appended under
  a fixed schema.
  - The parser is an imperative method with loops. It is proved equal to a
    functional specification.
  - Parse then rebuild gives back the page, for well-formed tables.
  - Insertion is idempotent. It keeps the table sorted whenever the
    comparison is a total preorder on the ids involved.
  - `naturalCompare` is such a preorder on plain ids: ids that start with a
    digit, or with a character above `9` that is not white space. On
    arbitrary strings it is not transitive: `" 7" < " x" < "6" < " 7"`
    (`NaturalOrder.NotTransitive`). The reason is that `parseInt` skips
    leading spaces, while the fallback comparison does not.
- **The template parameter store** (`WikiTemplate`). It reads and writes
  `| name = value` lines. The regular expressions are written out as explicit
  scanners.
- **The four per-level page strategies** (`WikiSprava`, `WikiOpys`,
  `WikiFond`, `WikiArchive`).
  - The sprava page fills the first free one of five `link_commons` slots.
  - The opys, fond and archive pages each have a fresh-page builder with a
    placeholder row `1`, a fallback schema and an ordering.
  - The archive level groups fonds by their letter prefix.
    - A fond written with the default prefix, such as `Д-5`, gets the
      unprefixed placeholder `1`.
    - It compares as its bare number: `1` and `Д-1` compare equal
      (`WikiArchive.DefaultPrefixDash`).
- **The pure helpers of the upload form.** These are:
  - reference normalisation (`ReferenceCode`);
  - the public file name and its local checks (`FileName`);
  - entry validation (`Validation`);
  - licence options (`License`);
  - end-year extraction (`DateFields`);
  - the entry record (`Entry`);
  - the archive list and its search (`Archives`);
  - the chunk ranges, the duplicate sentinel, the date string and the update
    flags of the upload client (`UploadPlan`).

How some source constructs are represented:
- The current year is a parameter.
- A warning logged after a parse fallback is the `warning` field of a
  page update: the page title when a warning is emitted.
- Whether a page was created is the `created` field.
- `Text` holds the string helpers: trimming, splitting and joining, searching,
  case mapping and `parseInt`.
- `Seqs` holds the order-preserving filter.

The source gives two different answers for one commit response. On the
chunked upload path, the commit error is thrown. On the direct path, the
same error is returned as a failed result. `UploadPlan.PathsAgree` states
this difference and shows that the paths agree otherwise.

## Model

| member | source | states |
|---|---|---|
| WikiTable.IdMatchAtMeaning | src/lib/wikitable.ts:69-71 | the id pattern matches at a position exactly when the opener, a non-empty id without `/`, and `/]]` follow there |
| WikiTable.FindIdSpec | src/lib/wikitable.ts:69-71 | the id search finds nothing iff no position matches; otherwise it returns the capture at the leftmost matching position |
| WikiTable.FindIdLeftmost | src/lib/wikitable.ts:69-71 | a match with no match before it is the one the search returns |
| WikiTable.HeaderColumnCount | src/lib/wikitable.ts:54-55 | a header of n cells joined by `!!` or `||` has n-1 separators, so the column count is n |
| WikiTable.HeaderIndex | src/lib/wikitable.ts:41-47 | the header is the first line from index 1 on that starts with `!`; none iff no such line |
| WikiTable.RowEnd | src/lib/wikitable.ts:63-66 | a row runs up to the first later line that starts with `|-` or equals `|}` |
| WikiTable.RowsFromShape | src/lib/wikitable.ts:57-76 | every parsed row starts with `|-`, and its id is the first id-pattern match in it |
| WikiTable.ParseErrors | src/lib/wikitable.ts:23-32 | the parse fails with "no table" iff there is no `{|`, and with "no closing" iff no `\n|}` follows the first `{|` |
| WikiTable.ParseNoHeader | src/lib/wikitable.ts:41-51 | past the two markers, the parse fails with "no header" iff no line after the start line begins with `!` |
| WikiTable.ParseSplit | src/lib/wikitable.ts:34-55 | on success, `before` is the text before the first `{|`, `after` the text after the first `\n|}` that follows it, the header starts with `!`, and the column count is the separator count + 1 |
| WikiTable.ParseWikiTable | src/lib/wikitable.ts:22-79 | the line-scanning parser returns exactly the specified split or error |
| WikiTable.ParseTableLines | src/lib/wikitable.ts:38-78 | the scan over the table's lines returns the specified header, rows and column count, or the no-header error |
| WikiTable.FindHeaderLine | src/lib/wikitable.ts:41-47 | the header loop with its break finds the specified header line |
| WikiTable.CollectRows | src/lib/wikitable.ts:57-76 | the row loop collects exactly the specified rows, skipping lines outside rows |
| WikiTable.RowLines | src/lib/wikitable.ts:61-66 | the inner loop gathers the lines of one row and stops at the row's end |
| WikiTable.Rebuild | src/lib/wikitable.ts:81-87 | the rebuilt page starts with `before` and ends with `after` |
| WikiTable.RebuildLines | src/lib/wikitable.ts:81-87 | on a well-formed table, rebuilding the parse gives back the table text, with nothing before or after changed |
| WikiTable.RoundTrip | src/lib/wikitable.ts:22-87 | when the header follows the start line and every body line belongs to a row, `rebuildPage(parseWikiTable(c)) == c` |
| TableEdit.RowCells | src/lib/wikitable.ts:89-92 | exactly `columnCount` cells: the link, then the given cells, padded with `""` or cut |
| TableEdit.BuildRow | src/lib/wikitable.ts:89-94 | the padding loop and truncation give `|-\n|` and the cells joined by `||` |
| TableEdit.BuildRowId | src/lib/wikitable.ts:89-94 | the built row's id, read back with the same link prefix, is the given id |
| TableEdit.RowTextShape | src/lib/wikitable.ts:90-93 | a row starts with `|-\n|` followed by `[[prefix id/]]` |
| TableEdit.InsertIndex | src/lib/wikitable.ts:106-112 | the new row goes before the first row with an id that compares greater, or at the end |
| TableEdit.Splice | src/lib/wikitable.ts:114-115 | exactly one row is inserted at the index; the others keep their content and order |
| TableEdit.InsertRow | src/lib/wikitable.ts:96-118 | the duplicate check, search loop and splice rebuild the page with the specified rows |
| TableEdit.InsertIdempotent | src/lib/wikitable.ts:102-104 | after an insertion the id is present, and a second insertion of it changes nothing |
| TableEdit.InsertKeepsSorted | src/lib/wikitable.ts:106-117 | inserting into a sorted table keeps it sorted, given a total preorder on the ids |
| TableEdit.SpliceSorted | src/lib/wikitable.ts:106-115 | splicing at the found index keeps the rows sorted |
| TableEdit.FallbackKeepsPage | src/lib/wikitable.ts:126-145 | success returns the parse and no fallback; failure reports exactly the parse error and rebuilds to the old page, a blank line and the schema's empty table |
| NaturalOrder.NaturalCompareReflexive | src/lib/wikitable.ts:147-163 | every id compares equal to itself |
| NaturalOrder.NaturalCompareAntisymmetric | src/lib/wikitable.ts:147-163 | swapping the arguments negates the result |
| NaturalOrder.NumericOrder | src/lib/wikitable.ts:151-153 | different leading integers compare numerically |
| NaturalOrder.SuffixOrder | src/lib/wikitable.ts:156-160 | equal leading integers compare by what follows them (`4` before `4а`) |
| NaturalOrder.ParseNumberWithSuffix | src/lib/wikitable.ts:148-149 | `parseInt` reads a number followed by a non-digit suffix as that number |
| NaturalOrder.NotTransitive | src/lib/wikitable.ts:147-163 | the order is not transitive on ids with leading spaces |
| NaturalOrder.NumericFirst | src/lib/wikitable.ts:147-163 | a plain id starting with a digit comes before one starting with a letter |
| NaturalOrder.PlainTransitive | src/lib/wikitable.ts:147-163 | on plain ids the comparison is transitive |
| NaturalOrder.NumericTransitive | src/lib/wikitable.ts:147-163 | on ids that all parse as numbers the comparison is transitive |
| NaturalOrder.PlainPreorder | src/lib/wikitable.ts:147-163 | on a set of plain ids the comparison is a total preorder |
| Listing.FreshPageIsTable | src/lib/wikitable.ts:81-87 | a fresh page's text is the rebuild of a table holding its rows |
| Listing.FallbackInsert | src/lib/wikitable.ts:126-145 | inserting into the fallback table appends a blank line and the schema table with the one new row to the old page |
| Listing.PresentUnchanged | src/lib/wikitable.ts:102-104 | on a well-formed page that already lists the id, the page comes back unchanged |
| Listing.InsertSorted | src/lib/wikitable.ts:96-145 | on a parseable sorted page the result is the page with the row inserted; the id is present and the rows stay sorted |
| WikiTemplate.FindKey | src/lib/wikitemplate.ts:7-8 | a found position holds `|`, spaces or tabs, the name, spaces or tabs, then `=` |
| WikiTemplate.FindKeyNone | src/lib/wikitemplate.ts:7-9 | the search finds nothing iff no position holds the key pattern |
| WikiTemplate.FindKeyFirst | src/lib/wikitemplate.ts:7-8 | no key occurs before the one found |
| WikiTemplate.FindKeyLeftmost | src/lib/wikitemplate.ts:7-8 | the first key position is the one found |
| WikiTemplate.KeySpan | src/lib/wikitemplate.ts:7 | a key match starts at `|`, ends after `=`, and spans no other `|`, newline or `}` |
| WikiTemplate.ValueAt | src/lib/wikitemplate.ts:7 | the captured value is the rest of the line and holds no newline |
| WikiTemplate.GetTemplateParam | src/lib/wikitemplate.ts:6-11 | a value read is trimmed |
| WikiTemplate.GetNoneIffAbsent | src/lib/wikitemplate.ts:6-9 | the result is null exactly when the key pattern occurs nowhere |
| WikiTemplate.FirstParamReads | src/lib/wikitemplate.ts:6-11 | a parameter line after text without `|` or `=` is read back as its trimmed value |
| WikiTemplate.SetTemplateParam | src/lib/wikitemplate.ts:18-24 | without the key and without `}}`, the content is unchanged |
| WikiTemplate.SetExisting | src/lib/wikitemplate.ts:19-22 | an existing key: only the first span from the key to the end of its line is replaced by `| name = value` |
| WikiTemplate.SetMissing | src/lib/wikitemplate.ts:23 | a missing key: ` | name = value\n` is inserted right before the first `}}` |
| WikiTemplate.GetAfterSet | src/lib/wikitemplate.ts:6-24 | get after set returns the trimmed value when the key was present or `}}` occurs |
| WikiTemplate.GetAfterReplace | src/lib/wikitemplate.ts:19-22 | get after replacing an existing key returns the trimmed value |
| WikiTemplate.GetAfterAppend | src/lib/wikitemplate.ts:23 | get after appending a missing key returns the trimmed value |
| WikiTemplate.SetExistingKeepsOther | src/lib/wikitemplate.ts:19-22 | replacing an empty `h` leaves another present key `g` readable, with its value unchanged unless it ran into the edited line |
| WikiTemplate.SetMissingKeepsOther | src/lib/wikitemplate.ts:23 | appending `h` leaves another present key `g` readable, with its value unchanged unless it ran into the new line |
| WikiTemplate.SetKeepsOther | src/lib/wikitemplate.ts:18-24 | setting an absent or empty `h` leaves any other present key readable, and unchanged unless its line ran into the edit |
| WikiSprava.SpravaPageTitle | src/lib/wikisource-sprava.ts:67 | the title is `Архів:abbr/…/sprava` |
| WikiSprava.LinkCommonsFieldsPlain | src/lib/wikisource-sprava.ts:28-34 | the five slot names are plain parameter names |
| WikiSprava.LinkCommonsFieldsDistinct | src/lib/wikisource-sprava.ts:28-34 | the five slot names differ |
| WikiSprava.SlotValues | src/lib/wikisource-sprava.ts:41-42 | one read per slot, in order |
| WikiSprava.FirstFree | src/lib/wikisource-sprava.ts:41-50 | the first slot that is absent, empty or already holds the file; every slot before it holds another value |
| WikiSprava.FirstFreeAt | src/lib/wikisource-sprava.ts:41-50 | the first such slot is the one the loop stops at |
| WikiSprava.AddLinkAtSlot | src/lib/wikisource-sprava.ts:36-52 | all slots full: unchanged; the stop slot holds the file: unchanged; otherwise the stop slot is set to the file |
| WikiSprava.FirstSlotHolds | src/lib/wikisource-sprava.ts:46-48 | when the first slot already holds the file, the content is unchanged |
| WikiSprava.AddLinkFills | src/lib/wikisource-sprava.ts:43-45 | the first absent or empty slot then reads back as the file |
| WikiSprava.AddLinkSettles | src/lib/wikisource-sprava.ts:43-45 | filling the slot keeps every earlier slot occupied by its other value |
| WikiSprava.StaysOccupied | src/lib/wikisource-sprava.ts:43-49 | filling one slot leaves a slot that held another value occupied |
| WikiSprava.AddLinkIdempotent | src/lib/wikisource-sprava.ts:36-52 | adding the same link twice equals adding it once, for distinct slot names |
| WikiSprava.AddLinkCommonsIdempotent | src/lib/wikisource-sprava.ts:36-52 | `addLinkCommonsToContent` applied twice with one name equals applying it once |
| WikiSprava.BuildOrUpdateSpravaContent | src/lib/wikisource-sprava.ts:54-62 | no page: the fresh page; a page: the link added to it |
| WikiSprava.UpdateSpravaPage | src/lib/wikisource-sprava.ts:64-78 | the sprava title, the content above, the fixed summary, and `created` iff the page was absent |
| WikiSprava.NewPageName | src/lib/wikisource-sprava.ts:19-21 | the fresh page's `назва` reads back as the trimmed sprava name |
| WikiSprava.NewPageLink | src/lib/wikisource-sprava.ts:19-23 | the fresh page's `link_commons` reads back as `File:` and the name, trimmed |
| WikiSprava.NewPageFileLink | src/lib/wikisource-sprava.ts:19-23 | the fresh page's first slot holds exactly the file value |
| WikiSprava.BuildThenAdd | src/lib/wikisource-sprava.ts:19-52 | adding the link to a fresh page built for the same file changes nothing |
| WikiSprava.FileValueClean | src/lib/wikisource-sprava.ts:40 | `File:` and a name without `$`, `|`, a newline or trailing space is a value the store reads back unchanged |
| WikiOpys.SpravaRowShape | src/lib/wikisource-opys.ts:25-32 | the row is `buildRow(s, [name, dates, "", ""], cc)`; with 5 columns these are its cells; its id reads back as `s` |
| WikiOpys.OpysSchemaColumns | src/lib/wikisource-opys.ts:73-77 | the schema header has the schema's 5 columns |
| WikiOpys.NewOpysPageTable | src/lib/wikisource-opys.ts:34-54 | the fresh page is a table of one row for sprava `1`, else the placeholder `1` then the row; each row's id reads back |
| WikiOpys.NewOpysPageName | src/lib/wikisource-opys.ts:34-39 | the fresh page's `назва` reads back as the trimmed opys name |
| WikiOpys.UpdateOpysPage | src/lib/wikisource-opys.ts:95-109 | title, summary `Додано справу s`, `created` iff absent, and a warning with the page title iff an existing page does not parse |
| WikiOpys.OpysFallback | src/lib/wikisource-opys.ts:56-61 | an unparseable page becomes the page, a blank line and the schema table with the new row, with a warning titled `Архів:abbr/fond/opys` |
| WikiOpys.OpysPresentUnchanged | src/lib/wikisource-opys.ts:63-71 | an existing sprava id leaves a well-formed page unchanged |
| WikiOpys.OpysInsertSorted | src/lib/wikisource-opys.ts:79-88 | a parseable sorted page gets the row inserted by `naturalCompare` at its column count; the rows stay sorted |
| WikiFond.OpysRowShape | src/lib/wikisource-fond.ts:21-27 | the row is `buildRow(o, [name, "", ""], cc)`; its id reads back as `o` |
| WikiFond.FondSchemaColumns | src/lib/wikisource-fond.ts:63-67 | the schema header has the schema's 4 columns |
| WikiFond.NewFondPageTable | src/lib/wikisource-fond.ts:29-48 | the fresh page is a table of one row for opys `1`, else the placeholder `1` then the row |
| WikiFond.NewFondPageName | src/lib/wikisource-fond.ts:29-33 | the fresh page's `назва` reads back as the trimmed fond name |
| WikiFond.ParseFondPage | src/lib/wikisource-fond.ts:50-52 | the fond parse fails exactly where the fallback would be taken, with the same error |
| WikiFond.UpdateFondPage | src/lib/wikisource-fond.ts:88-102 | title, summary `Додано опис o`, `created` iff absent, a warning iff an existing page does not parse |
| WikiFond.FondFallback | src/lib/wikisource-fond.ts:69-81 | an unparseable page keeps its text and gets the schema table with the new row, warning with `Архів:abbr/fond` |
| WikiFond.FondPresentUnchanged | src/lib/wikisource-fond.ts:54-61 | an existing opys id leaves a well-formed page unchanged |
| WikiFond.FondInsertSorted | src/lib/wikisource-fond.ts:54-81 | a parseable sorted page gets the row inserted in natural order; the rows stay sorted |
| WikiArchive.LetterRun | src/lib/wikisource-archive.ts:20-24 | the longest leading run of prefix letters |
| WikiArchive.PrefixEnd | src/lib/wikisource-archive.ts:20-24 | the dash after a non-empty letter run, when there is one |
| WikiArchive.ExtractFondPrefix | src/lib/wikisource-archive.ts:20-24 | the letter run before the dash, else `Д` |
| WikiArchive.StripPrefix | src/lib/wikisource-archive.ts:78-82 | what follows the prefix and its dash, else the whole fond |
| WikiArchive.PrefixedFond | src/lib/wikisource-archive.ts:20-24 | letters, a dash and a rest give back the letters and the rest |
| WikiArchive.FondSplit | src/lib/wikisource-archive.ts:20-24 | a prefixed fond is its prefix, a dash and its rest |
| WikiArchive.UnprefixedFond | src/lib/wikisource-archive.ts:20-24 | a fond not starting with a prefix letter has prefix `Д` and is kept whole |
| WikiArchive.SamePrefixSamePage | src/lib/wikisource-archive.ts:26-28 | fonds with one prefix go to the page `Архів:abbr/prefix` |
| WikiArchive.DifferentPrefixDifferentPage | src/lib/wikisource-archive.ts:26-28 | fonds with different prefixes go to different pages (`Р-34` and `Н-34`) |
| WikiArchive.FondCompareIgnoresPrefix | src/lib/wikisource-archive.ts:78-82 | prefixed fonds compare as their bodies, so equal bodies compare 0 |
| WikiArchive.FondPreorder | src/lib/wikisource-archive.ts:78-82 | on fonds with plain bodies the comparison is a total preorder |
| WikiArchive.FondRowShape | src/lib/wikisource-archive.ts:30-36 | the row uses link prefix `../` and cells `[name, "", ""]`; its id reads back with `[[../` |
| WikiArchive.ArchiveSchemaColumns | src/lib/wikisource-archive.ts:93-97 | the schema header has the schema's 4 columns |
| WikiArchive.PlaceholderOnSamePage | src/lib/wikisource-archive.ts:53-66 | the placeholder has the fond's prefix and body `1` |
| WikiArchive.PrefixLetters | src/lib/wikisource-archive.ts:20-24 | an extracted prefix other than the default is a non-empty letter run |
| WikiArchive.FirstOfPrefix | src/lib/wikisource-archive.ts:53-66 | the placeholder `<prefix>-1` has that prefix and body `1` |
| WikiArchive.DefaultPrefixDash | src/lib/wikisource-archive.ts:53-66 | `Д-x` is not a first fond, gets placeholder `1`, and `1` compares with it as with `x` |
| WikiArchive.NewArchivePageTable | src/lib/wikisource-archive.ts:38-67 | the fresh page is a table of one row when the body is `1`, else the placeholder then the row |
| WikiArchive.TitleLineFirst | src/lib/wikisource-archive.ts:38-46 | the fresh page opens with the template and its `назва` line |
| WikiArchive.NewArchivePageName | src/lib/wikisource-archive.ts:38-46 | the fresh page's `назва` reads back as the parent title |
| WikiArchive.UpdateArchivePage | src/lib/wikisource-archive.ts:115-129 | title by prefix, summary `Додано фонд f`, `created` iff absent, a warning iff an existing page does not parse |
| WikiArchive.ArchiveFallback | src/lib/wikisource-archive.ts:69-76 | an unparseable page keeps its text and gets the schema table, warning with the archive page title |
| WikiArchive.ArchivePresentUnchanged | src/lib/wikisource-archive.ts:84-91 | an existing fond id leaves a well-formed page unchanged |
| WikiArchive.ArchiveInsertSorted | src/lib/wikisource-archive.ts:84-108 | a parseable sorted page gets the row inserted by `fondCompare`; the rows stay sorted |
| Archives.AbbreviationsDistinct | src/lib/archives.ts:7-37 | the abbreviations of `ARCHIVES` are pairwise distinct |
| Archives.Search | src/lib/archives.ts:39-45 | the result is a subsequence; an archive is kept iff its lower-cased name or abbreviation contains the lower-cased query; the empty query keeps all |
| Archives.FindsByAbbreviation | src/lib/archives.ts:39-45 | an archive is found by its abbreviation in either case |
| DateFields.FirstFourDigits | src/upload/components/DateFields.tsx:20-21 | the first run of four digits from a position, or none |
| DateFields.GetEndYear | src/upload/components/DateFields.tsx:18-23 | null iff the relevant field has no four-digit run; otherwise the first run's value, below 10000 |
| DateFields.ModeChange | src/upload/components/DateFields.tsx:118-120 | a mode switch clears both date fields |
| DateFields.ModeChangeClearsEndYear | src/upload/components/DateFields.tsx:118-120 | after a mode switch there is no end year |
| Entry.MakeEntry | src/upload/types.ts:79-111 | a new entry is idle, unsubmitted, with zero progress, an idle name check, an unedited name and the range date mode |
| Entry.FreshEntryNamesDisabled | src/upload/types.ts:12-18 | the fond and opys name fields are disabled on a new entry |
| FileName.Utf8Length | src/upload/hooks/usePublicFileName.ts:8-10 | between one and four bytes per character; one per ASCII character |
| FileName.LastIndexOfChar | src/upload/hooks/usePublicFileName.ts:12-15 | the last occurrence of the character, null iff absent |
| FileName.FileNameStem | src/upload/hooks/usePublicFileName.ts:12-15 | a prefix of the name; shorter iff a dot occurs after index 0, then cut at the last dot |
| FileName.Extension | src/upload/hooks/usePublicFileName.ts:21 | the text after the last dot, or the whole name |
| FileName.BuildAutoFileName | src/upload/hooks/usePublicFileName.ts:17-28 | empty without a full reference; never holds `:`, `/` or `\`; exactly prefix + cut name + `.ext` when those hold none of them |
| FileName.AutoTitle | src/upload/hooks/usePublicFileName.ts:20-25 | the trimmed sprava name cut to the first `75 − |prefix| − |suffix|` characters (none when that is negative, all when it exceeds the length) |
| FileName.Cut | src/upload/hooks/usePublicFileName.ts:25 | `slice(0, Math.max(0, n))`: a prefix of the string of length `min(|s|, max(0, n))` |
| FileName.NothingForbiddenKept | src/upload/hooks/usePublicFileName.ts:27 | removing `:`, `/` and `\` from a name without any leaves it unchanged |
| FileName.AutoNameParts | src/upload/hooks/usePublicFileName.ts:27 | the automatic name is the prefix, the cut name and the suffix, each with `:`, `/` and `\` removed |
| FileName.AutoNameLength | src/upload/hooks/usePublicFileName.ts:19-27 | the automatic name is at most 75 characters when its fixed parts fit |
| FileName.WithExtension | src/upload/hooks/usePublicFileName.ts:33-38 | the name is kept iff `ext` is empty or the name already ends with `.ext`, ignoring case; otherwise the result is exactly `name + "." + ext` |
| FileName.GetEffectiveFileName | src/upload/hooks/usePublicFileName.ts:30-40 | the automatic name unless an edited non-blank name is given; then exactly `WithExtension(trimmed name, extension)`, which starts with the trimmed name and ends with the extension |
| FileName.InvalidOnlyWhenEdited | src/upload/hooks/usePublicFileName.ts:52-54 | forbidden characters can only come from a name the user typed |
| FileName.ClassifyFileName | src/upload/hooks/usePublicFileName.ts:75-95 | idle iff disabled or blank; otherwise invalid characters iff the name holds a forbidden character, too short iff it holds none and the stem is under 5, too long iff both of those pass and the name is over 235 bytes; Commons is asked iff all pass |
| ReferenceCode.NormalizeFond | src/upload/hooks/useArchivalReferenceCode.ts:55-61 | upper-case, no white space or `/`; equal to the cleaned upper-cased value, except that a dash is put after a leading capital (`A`–`Z`, `А`–`Я`, `І`, `Ї`, `Є`, `Ґ`) followed by a digit |
| ReferenceCode.NormalizeFondOnlyAddsDash | src/upload/hooks/useArchivalReferenceCode.ts:56-59 | apart from dashes, the result is the cleaned fond |
| ReferenceCode.NormalizeFondIdempotent | src/upload/hooks/useArchivalReferenceCode.ts:55-61 | normalising twice equals normalising once |
| ReferenceCode.NormalizedFondPrefix | src/upload/hooks/useArchivalReferenceCode.ts:57-59 | the dash inserted is the one the archive level reads the prefix from |
| ReferenceCode.NormalizeLetterDigits | src/upload/hooks/useArchivalReferenceCode.ts:52-61 | a letter and digits become the capital, a dash and the digits (`р203` to `Р-203`) |
| ReferenceCode.NormalizeOpysSprava | src/upload/hooks/useArchivalReferenceCode.ts:63-68 | exactly the input with white space, `-` and `/` removed, then lower-cased; so none of those remain, the result is lower-case and each character comes from the input |
| ReferenceCode.NormalizeOpysSpravaIdempotent | src/upload/hooks/useArchivalReferenceCode.ts:66-68 | normalising twice equals normalising once |
| ReferenceCode.NormalizeAcrossDash | src/upload/hooks/useArchivalReferenceCode.ts:63-68 | a dash between two parts is dropped and both are lower-cased (`4-А` to `4а`) |
| Validation.DateError | src/upload/validation.ts:7-41 | per mode, no error iff the date is accepted; each message iff its rule is the first to fail: free text, required iff blank; single, required iff blank, not a number iff filled and not all digits, too late iff a number above the year; range, both, start or end required by which ends are blank, not numbers iff both filled and one is not all digits, end too late iff both are numbers and the end is above the year, end before start iff both are numbers, the end is not above the year and is below the start |
| Validation.AcceptedDateHasValue | src/upload/validation.ts:7-41 | an accepted date is never blank |
| Validation.FileNameError | src/upload/validation.ts:43-58 | null iff disabled, or not blank on submit and the stored check reports no problem; required iff enabled, submitted and blank; otherwise, each of the invalid characters, too short and too long messages iff the stored check is that state, blacklisted iff Commons flagged it, taken iff Commons found it and did not blacklist it |
| Validation.FirstLocalFailureShown | src/upload/validation.ts:43-52 | with the check state the local checks settle on, the message shown is that of the first failing local check: forbidden characters, then a stem under 5, then over 235 bytes |
| Validation.SettledCheckError | src/upload/validation.ts:43-58 | with the locally settled check state, there is an error iff a local check failed or a blank name was submitted |
| Validation.Req | src/upload/validation.ts:73 | the required message iff missing |
| Validation.GetEntryErrors | src/upload/validation.ts:72-89 | each field errs iff submitted and blank, always with the required-field message; the dates error is exactly `getDateError` when submitted and none otherwise; the licence iff a date is given and none is chosen; the file name as above |
| Validation.EntryValidIff | src/upload/validation.ts:91-94 | valid iff every required field is filled, the date is accepted, a licence is chosen and the file name has no error on submit |
| Validation.FreshEntryQuiet | src/upload/validation.ts:72-94 | a new entry shows no error yet is not valid |
| License.Available | src/upload/components/LicenseField.tsx:70-81 | a subsequence of the options; in free-text mode filtered by the anonymity rule, with no end year empty, otherwise filtered by the year rules |
| License.AvailabilityRules | src/upload/components/LicenseField.tsx:74-80 | the thresholds one by one: before year-120, up to 1917, before year-70, before year-70 with a blank author, others always |
| License.OptionValuesDistinct | src/upload/components/LicenseField.tsx:21-68 | the five option values differ |
| License.OtherModeAnonymousAll | src/upload/components/LicenseField.tsx:72 | free-text mode with a blank author offers every option |
| License.UaExemptAlwaysOffered | src/upload/components/LicenseField.tsx:70-81 | the official-documents option is offered whenever any option can be |
| License.LaterYearOffersLess | src/upload/components/LicenseField.tsx:74-80 | a later end year offers a subsequence of what an earlier one offers |
| License.LicenseCountLabel | src/upload/components/LicenseField.tsx:83-87 | 1: `ліцензію`; 2 to 4: `ліцензії`; otherwise `ліцензій` |
| License.CountLabelGrammatical | src/upload/components/LicenseField.tsx:83-87 | the label follows the Ukrainian numeral rule for counts up to 20 |
| License.SortKeyIn | src/upload/components/LicenseField.tsx:144-147 | for the first option whose value is `v`, exactly that option's key; 0 when no option has the value |
| License.KeyOfListed | src/upload/components/LicenseField.tsx:144-147 | with distinct values, each option's value has its own key |
| License.OptionKeys | src/upload/components/LicenseField.tsx:21-68 | every option in the list has its own `sort` as key |
| License.InsertByKey | src/upload/components/LicenseField.tsx:144-147 | inserting into a key-sorted list keeps it sorted and adds exactly the value |
| License.InsertByKeyStable | src/upload/components/LicenseField.tsx:144-147 | the inserted value goes in front of the values with its key, and no two values with the same key change places |
| License.SortByKey | src/upload/components/LicenseField.tsx:144-147 | a permutation sorted by the key |
| License.SortByKeyStable | src/upload/components/LicenseField.tsx:144-147 | stable: for every key, the values with that key come out in their input order |
| License.SortByOptionOrder | src/upload/components/LicenseField.tsx:144-147 | a permutation of the chosen values, non-decreasing by option order, unknown values keyed 0 |
| License.SortByOptionOrderStable | src/upload/components/LicenseField.tsx:144-147 | as `Array.prototype.sort`, stable: values with the same option order keep the order they were chosen in |
| License.SameKeyKeepsOrder | src/upload/components/LicenseField.tsx:144-147 | values that all share one key, such as values of no option, come back unchanged |
| UploadPlan.ChunkCount | src/upload/upload.ts:96 | the fewest chunks of `CHUNK_SIZE` that hold the file |
| UploadPlan.ChunkSpans | src/upload/upload.ts:94-105 | chunk i starts at i·C; the chunks are non-empty, at most C long, contiguous, and cover `[0, size)` |
| UploadPlan.TilesCover | src/upload/upload.ts:94-105 | every byte of the file lies in some chunk |
| UploadPlan.TilesDisjoint | src/upload/upload.ts:94-105 | the chunks do not overlap |
| UploadPlan.LargeFileSeveralChunks | src/upload/upload.ts:94-96 | a file over the threshold goes in at least two chunks |
| UploadPlan.CommitUpload | src/upload/upload.ts:34-54 | a duplicate gives the sentinel prefix and its URL; an error is thrown iff there is no duplicate |
| UploadPlan.DecodeCommit | src/upload/upload.ts:122-126 | a duplicate iff the sentinel prefix is there, and the URL after it |
| UploadPlan.SentinelRoundTrip | src/upload/upload.ts:51 | `"__duplicate__" + u` decodes to the duplicate `u` |
| UploadPlan.LargeOutcome | src/upload/upload.ts:122-126 | the chunked path throws iff the commit does, and otherwise decodes its result |
| UploadPlan.SmallOutcome | src/upload/upload.ts:127-136 | the direct path never throws: duplicate first, then error, then success |
| UploadPlan.PathsAgree | src/upload/upload.ts:122-136 | both paths give the same result, except that a commit error is thrown on one and returned on the other |
| UploadPlan.BuildWikiSourceDateStr | src/upload/upload.ts:9-14 | the start alone iff free text, no end or equal ends; otherwise start, hyphen, end |
| UploadPlan.DateStrSplits | src/upload/upload.ts:9-14 | a range splits back at its hyphen into start and end |
| UploadPlan.Flags | src/upload/upload.ts:167-169 | the opys, fond and archive update flags by which pages are missing |
| UploadPlan.FlagsCascade | src/upload/upload.ts:167-169 | an archive update implies a fond update; a missing opys page updates opys and fond |
| UploadPlan.ChosenName | src/upload/upload.ts:162-163 | exactly the fetched name when it is not empty, else exactly the typed one |

## Left out

- Network, authentication and the `async update*Page` wrappers: only their
  titles, summaries, content and `created` flag are modelled. Fetching and
  saving pages, the API routes and the publish orchestrator are not part of
  this model.
- Clocks: the current year is a parameter of `Validation` and `License`.
- Logging: `logWarning` and the `onFallback` callback are modelled as the
  `warning` field (the page title) and as the returned parse error.
- `localeCompare` is modelled as ordinal comparison of code points. Locale
  collation is not modelled.
- Strings are sequences of code points, not UTF-16 units. Upper- and
  lower-casing map exactly these pairs: ASCII `A`–`Z`/`a`–`z`, Cyrillic
  U+0410–U+042F/U+0430–U+044F, U+0400–U+040F/U+0450–U+045F and `Ґ`/`ґ`
  (U+0490/U+0491). Every other character, such as `é` or `ß`, is left as it
  is, where JavaScript would change it. `\s` is the ASCII and
  common Unicode space characters.
- `parseInt` is modelled exactly on integers: white space, a sign and digits.
  Float precision for very long digit runs is not modelled.
- Regular expressions are written out as scanners. They hold for parameter
  names made of plain name characters, and for values without `$`, since
  `String.replace` would expand `$&`.
- WikiTemplate.SetKeepsOther: stated only for a key `h` that was absent or
  empty, since a non-empty old line may itself hold `| g =`. The other key's
  value may gain the rest of the edited line when it ran on into it.
- WikiTemplate.GetAfterSet: needs a value without a newline or `$`.
- WikiSprava.AddLinkCommonsIdempotent: needs a file name without `$`, `|`
  or a newline, and without trailing white space.
- WikiSprava.BuildThenAdd: has the same requirement on the file name, and
  none of `|` in the sprava name or dates.
- NaturalOrder.PlainPreorder: ordering is proved for plain ids only; on
  arbitrary strings the order is not transitive (`NaturalOrder.NotTransitive`).
  The sort of `["10","4а","1","5","4","2"]` follows from `NumericOrder` and
  `SuffixOrder`; that literal list is not stated separately.
- License.SortKeyIn: takes the key of the first option with the value, where
  the source's `Map` keeps the last; the two agree on the option list, whose
  values are distinct (`License.OptionValuesDistinct`, `License.OptionKeys`).
- License.CountLabelGrammatical: stated for counts up to 20 only. At 21 the
  source's label (`ліцензій`) differs from the grammatical rule, but there
  are only five options to choose from.
- `FilterArchives` and `GetAvailableOptions` are the constant-list instances
  of `Archives.Search` and `License.Available`; their properties are stated
  on those general functions.
- The pre-network classification of the file name stops where Commons is
  asked (`Remote`). The loading and done states and the debounce, cache and
  request counter of the hook are not modelled.
- The upload wizard's handling of thrown errors, retries with back-off,
  progress percentages and byte formatting are not modelled.
- The `??` fallbacks that types already rule out, the UI labels and help
  texts, and the components' effects are not modelled.
