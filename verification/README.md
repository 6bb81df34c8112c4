# Telegram messages parser — a Dafny model of its data handling

The parser reads the latest messages of a Telegram channel, groups photo-only
messages with the text message that follows them into posts, downloads each
post's photos as `<post id>_<photo id>.jpg` in the `photos` directory and writes a spreadsheet
with one row per post. This project models the deterministic part between the
Telegram client and the spreadsheet library, taking the fetched messages, the
directory-exists flag and the directory listing as plain inputs:

- **Record normalisation** (`Messages`): every fetched message becomes a
  record `{telegram_id, id, message, photo}`. The `id` is the first
  whitespace-delimited token of the stripped first line of the formatted text,
  or the sentinel `"No ID"` when that line is blank, with every `*` removed.
  The `message` is the raw text with each whitespace run turned into one
  space, then stripped. The string helpers and their properties are in `Text`
  (Python's whitespace set, stripping, splitting, cutting at the first line
  feed) and `Decimal` (Python's `str` of an integer).
- **Grouping** (`Grouping`): one pass with an accumulator of pending photo
  entries. A record with text closes a post made of the pending entries plus
  its own entry, which is appended even when the record has no photo. A record
  without text only adds its entry. Entries after the last record with text
  are dropped.
- **Download naming** (`Download`): one target per (post, photo entry) pair,
  post after post, photo after photo. The target is the base name joined to
  `photos` by POSIX path joining, so a post id starting with `/` gives an
  absolute base name, which is the target as it is: the id `/start` and
  photo 7 give `/start_7.jpg`. An absent photo entry has no photo id to
  read. The loop stops there with a failure, which the model reports as
  `AbsentPhoto`. A post whose text message has no photo always holds such an
  entry, so a run containing one fails at this step.
- **Report rows** (`Report`): a `Worksheet` class whose rows are appended and
  overwritten in place. The header `["ID", "Текст", "Фото"]` always comes first.
  Post rows are written only when the photo directory exists. A post's photo
  cell is rewritten for every listed file whose name starts with `<id>_`, so
  only the last label `"Фото k"` survives, where k is the number of matches.

Some behaviour of the code that is easy to miss:

- The text record's own photo entry is appended to its post whether or not
  the record has a photo (main.py:58).
- Without the photo directory the report holds the header alone (main.py:96).
- A post's photo column is a single cell, rewritten once per matching file
  (main.py:110-111).
- The record's `message` is the whole raw text, id token included: for
  `"101 Nice house"` it is `"101 Nice house"`.
- The sentinel `"No ID"` itself contains a space. Only ids taken from a token
  are free of whitespace.

## Model

| member | source | states |
|---|---|---|
| Text.TrimLeft | main.py:30 | the left-stripped text is no longer than the input, does not start with whitespace, and is shorter when the input started with whitespace |
| Text.TrimRight | main.py:30 | the right-stripped text is no longer than the input and does not end with whitespace |
| Text.Strip | main.py:30 | the stripped text is no longer than the input and neither starts nor ends with whitespace |
| Text.TrimLeftSpec | main.py:30 | stripping on the left removes exactly a leading whitespace run |
| Text.TrimRightSpec | main.py:30 | stripping on the right removes exactly a trailing whitespace run |
| Text.StripEmptyIff | main.py:30-35 | a stripped line is empty exactly when it was all whitespace |
| Text.FirstLine | main.py:30 | the first line is no longer than the text and holds no line feed |
| Text.FirstLineSpec | main.py:30 | the first line is the prefix before the first line feed, holding none |
| Text.Word | main.py:32 | the first token is no longer than the line, and is non-empty when the line starts with a non-whitespace character |
| Text.WordSpec | main.py:32 | the first token is a whitespace-free prefix ended by whitespace or the end of the line |
| Text.Tokens | main.py:32-33 | splitting yields no tokens exactly when the line is empty or all whitespace |
| Text.TokensSpec | main.py:32-33 | splitting on whitespace yields non-empty, whitespace-free tokens |
| Text.TokensKeepText | main.py:32-33 | the tokens joined with nothing between them are the text with its whitespace deleted, so splitting keeps every other character in order |
| Text.RemoveStarsSpec | main.py:40 | removing asterisks leaves none, adds no character, and changes nothing when there were none |
| Text.RemoveStars | main.py:40 | the id with asterisks deleted holds no asterisk and is no longer than before |
| Text.RemoveStarsConcat | main.py:40 | deleting asterisks works character by character: the result for a concatenation is the concatenation of the results, so every other character is kept in order |
| Text.Collapse | main.py:41 | run replacement gives an empty text exactly for an empty input, and starts with whitespace exactly when the input does |
| Text.CollapseSpec | main.py:41 | after run replacement every whitespace character is a single, non-adjacent space, and all-whitespace text stays all-whitespace |
| Text.Clean | main.py:41 | a cleaned message has single non-adjacent spaces only and no leading or trailing whitespace |
| Text.CleanFixesClean | main.py:41 | cleaning leaves already clean text unchanged |
| Text.CleanIdempotent | main.py:41 | cleaning a cleaned message changes nothing |
| Text.CleanEmptyIff | main.py:41 | the cleaned message is empty exactly when the raw text is empty or all whitespace |
| Text.CleanIsJoinedTokens | main.py:41 | the cleaned message is the raw text's tokens joined by single spaces |
| Decimal.NatToString | main.py:109 | the counter's numeral is a non-empty string of digits without a leading zero |
| Decimal.IntToString | main.py:75 | a photo id's numeral is non-empty and holds no underscore, so it cannot be confused with the separator |
| Decimal.NatToStringRoundTrip | main.py:109 | the counter's decimal numeral reads back as the counter |
| Decimal.IntToStringRoundTrip | main.py:75 | a photo id's numeral, minus sign included, reads back as the id |
| Decimal.IntToStringInjective | main.py:75 | different photo ids are written differently |
| Messages.GetMessages | main.py:26-46 | one record per fetched message, in order: platform id and media copied, id extracted from the formatted text, message cleaned from the raw text |
| Messages.IdFromFirstWord | main.py:30-35 | for a non-blank first line the id is its leading word with asterisks removed, and it holds no whitespace |
| Messages.IdSentinelIff | main.py:31-35 | the id is "No ID" exactly when the first line is empty or all whitespace |
| Messages.ExtractId | main.py:30-40 | no id contains an asterisk |
| Messages.Normalise | main.py:37-44 | a record carries its message's platform id and media over, its id holds no asterisk and its text is clean |
| Messages.StarredIdExample | main.py:30-40 | the text "***55*** \nHello   world" gets the id "55" |
| Grouping.GroupObjects | main.py:48-64 | the accumulator pass emits exactly the groups of the grouping specification |
| Grouping.PendingIsTail | main.py:52-64 | the entries left pending are those of the records after the last record with text, none of which has text |
| Grouping.GroupsFollowTextRecords | main.py:56-59 | one group per record with text, in input order, holding that record |
| Grouping.GroupAll | main.py:54-62 | every group holds a record with text and a non-empty photo list ending with that record's own entry |
| Grouping.Pending | main.py:52-62 | the pending entries number at most the records read; the records they come from have no text and the record before them, if any, has text |
| Grouping.GroupingKeepsOrder | main.py:54-64 | the groups' entries followed by the dropped entries are exactly the input's entries, in order |
| Grouping.GroupsCoverUpToLastText | main.py:54-64 | the groups' entries are exactly the input's entries up to and including the last record with text |
| Grouping.NoTextNoGroups | main.py:61-62 | records without text emit nothing and only accumulate their entries |
| Grouping.OneBlockOneGroup | main.py:56-62 | a run of photo-only records closed by a record with text forms exactly one group of their entries plus its own |
| Grouping.GroupingSplitsAfterText | main.py:56-60 | after a record with text the accumulator is empty, so the rest of the input is grouped on its own |
| Grouping.HouseExample | main.py:54-62 | two photo-only records followed by "101 Nice house" form one group with all three entries |
| Download.FileName | main.py:75 | a base name starts with the post id and an underscore and ends with `.jpg` |
| Download.TargetPath | main.py:73-76 | the base name is the last part of the target, and the target is absolute exactly when the post id starts with `/` |
| Download.TargetPathJoin | main.py:73-76 | the target is `photos/` plus the base name, except for a post id starting with `/`, whose base name is the target |
| Download.AbsoluteIdExample | main.py:73-76 | the id `/start` and photo 7 give the target `/start_7.jpg`, outside the photo directory |
| Download.Entries | main.py:71-72 | the loop visits one entry per photo entry of the posts |
| Download.DownloadTargets | main.py:71-80 | one target per (post, photo entry) in post-then-photo order, named after the post id and photo id, or failure at the first absent photo |
| Download.NamePostPhotos | main.py:72-80 | the targets of one post's photos in order, each named after the post id and its photo id, or the position of the first absent photo with all earlier ones present |
| Download.EntriesFollowPhotos | main.py:71-72 | the loop visits exactly the posts' photo entries, in order |
| Download.EntriesNamedAfterTheirPost | main.py:71-76 | the j-th entry of post g is visited after the entries of the posts before it, paired with post g's id |
| Download.TargetsCountAfterGrouping | main.py:71-72 | after grouping, the number of photo entries the loop visits is the number of records up to the last record with text |
| Download.TargetPathInjective | main.py:73-76 | two targets coincide only for the same post id and the same photo id |
| Download.FileNameInjective | main.py:75 | two base names coincide only for the same post id and the same photo id |
| Report.PhotoLabel | main.py:103-111 | the photo cell is empty exactly when no file matched, and otherwise starts with the word for photo |
| Report.CountPrefixed | main.py:104-105 | the match count is at most the listing's length and is zero exactly when no listed name starts with the prefix |
| Report.PostRow | main.py:98-111 | a post's row holds its id, its text and a photo cell that is empty exactly when no listed name starts with the id and an underscore |
| Report.WritePhotoCell | main.py:103-117 | the inner loop leaves every row but the last unchanged and puts the label of the number of matches in the last row's photo cell |
| Report.CreateReport | main.py:91-117 | header first; post rows only when the directory exists; each row is id, message and the label for the number of matching files |
| Report.Worksheet.constructor | main.py:91-92 | a new worksheet has no rows |
| Report.Worksheet.MaxRow | main.py:110 | the last row's number, counting from 1, is the number of rows |
| Report.Worksheet.Append | main.py:93 | appending adds one row at the end and changes nothing else |
| Report.Worksheet.SetCell | main.py:110-111 | writing a cell replaces that cell's value and nothing else |
| Report.PhotoLabelTellsCount | main.py:103-117 | the photo cell is empty exactly when nothing matched, and its label determines the number of matches |
| Report.CountPrefixedAppend | main.py:104-105 | the matches in two listings add up |
| Report.PostFilesCounted | main.py:104-105 | appending the base names of a post's photos to a listing adds their number to that post's count |
| Report.SharedIdCountsBothPosts | main.py:104-105 | two posts with the same id both count the files of both, when their photo ids are all different (a directory lists each name once, and a photo saved twice under one id is one file) |
| Report.LongerIdFilesCounted | main.py:105 | a post whose id extends another's id with an underscore has its files counted in the other post's row too |

## Left out

- Telegram client calls: fetching messages (main.py:27), downloading media (main.py:78) and the connect, authorise and sign-in flow (main.py:134-139). These are network calls into a library outside the model. Their results are the inputs.
- Concurrency: creating one asyncio task per download and gathering them (main.py:77-82). Only the ordered list of target paths is modelled. Downloads scheduled before a failure are not.
- Filesystem calls: creating the directory, testing it exists, listing it and making absolute paths (main.py:69, 96, 104, 106). They are replaced by a boolean flag and a sequence of file names, taken in whatever order the listing gives.
- Spreadsheet library details: the hyperlink object with its target path and tooltip, column widths, saving the workbook and the final message (main.py:112-125). Only cell values are modelled.
- Logging, the hard-coded credentials and the driver (main.py:13-15, 128-155).
- Download.TargetPath: models POSIX path joining only (the `/` separator, and an absolute base name replacing the directory). Windows separators and drive letters are not modelled. The path string is modelled exactly, but the filesystem is not: an id holding `/` after its first character puts the photo in a subdirectory of `photos` (or elsewhere), which the model does not follow.
- Report.PostFilesCounted: is about a post's base names appended at the end of a listing. That the count does not depend on where in the listing they sit is not proved. For an id containing `/` the listing of the photo directory does not hold them at all, as the files sit in a subdirectory.
- Report.Worksheet.SetCell: writes only cells that already exist. The spreadsheet library creates missing cells on demand, but the report only ever writes column 3 of the row it has just appended.
- Messages without text: the model takes both texts as strings. A service message whose raw text is missing, which the regular-expression call would reject, is not modelled.
- Media: every attachment is modelled as a photo with a numeric id. An attachment without a photo id (a document, say) fails at main.py:75 like an absent one, but that case is not modelled separately.
- Whitespace: `Text.IsSpace` is the fixed character set Python treats as whitespace. Any change to that set in other Python versions is not modelled.
