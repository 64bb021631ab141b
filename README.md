# Line reconstruction of `ImgToPinyin.ocr`

A Dafny model of the layout step at the centre of the image-to-pinyin app.
Given the detections the OCR reader returns for an image, each
`(box, text, conf)`, `ImgToPinyin.ocr` does the following:

- files every detection under the key `round(y_center, -1)`, where `y_center` is the
  mean of the ordinates of `box[0]` and `box[2]`;
- walks the keys in ascending order, top to bottom;
- sorts each bucket in place, stably, by `box[0][0]`, left to right;
- joins the bucket's texts with single spaces;
- appends each joined line, followed by a newline, to the text, and its
  transliteration, followed by a newline, to the pinyin text;
- returns both strings stripped of surrounding whitespace.

The project has five modules:

- `Rounding` (`rounding.dfy`): Python's `round(y, -1)` on a centre `s / 2`. The centre
  goes to the nearest multiple of ten, and an exact tie goes to the even multiple.
- `Text` (`text.dfy`): the string operations the code uses, each stated as a function
  with its own properties. These are `str.strip`, `" ".join`, `str.split`
  (used only to state what the output means line by line) and the accumulation
  `text += line + "\n"`.
- `KeyOrder` (`key_order.dfy`): `sorted(d.items())` over a dictionary with distinct
  integer keys, which visits the keys in ascending order.
- `Reconstruction` (`reconstruction.dfy`): the whole computation as functions of the
  detections. It also holds the lemmas that say what the output is:
  - the lines partition the detections;
  - bands further apart than one quantum come out top to bottom;
  - each line is left to right and stable;
  - there is one newline per distinct key;
  - the pinyin output matches the text output line for line.
- `App` (`app.dfy`): the `ImgToPinyin` object. The field `lines` is the
  `defaultdict(list)`, and `keyOrder` is the insertion order the dictionary keeps.
  - `Group` is the clearing and bucketing loop.
  - `WalkLines` is the loop over the sorted keys.
  - `Ocr` runs both and strips the results. Each of the three is proved against the
    functions of `Reconstruction`.

Two things are parameters rather than modelled code:

- The OCR reader's answer is passed in as `result: seq<Detection>`.
- `pinyin.get(res, delimiter="")` is passed in as `pinyin: string -> string`.

Three behaviours of the code shape the model:

- Python's `round` sends exact ties to the even multiple, so centres 5 and 55 fall
  into buckets 0 and 60, not 10 and 50 (`Rounding.RoundToTensTies`,
  `Reconstruction.SeparateLinesExample`).
- A box with fewer than three corners makes the code raise `IndexError`; the `Box`
  type excludes it.
- The code's accumulator `text` is overwritten by the bucketing loop (see
  Findings). `Reconstruction.Reconstruct` and `Ocr` compute the evidently intended
  result, and `OcrAsWritten` computes the result as written.

## Model

| member | source | states |
|---|---|---|
| Rounding.RoundToTens | app.py:27-28 | the key is a multiple of ten within five of the centre `(box[0].y + box[2].y) / 2`; an exact tie takes the multiple with an even tens digit, as Python's `round(y, -1)` does |
| Rounding.RoundToTensUnique | app.py:28 | that property leaves no choice: any multiple of ten having it is the key `RoundToTens` computes |
| Rounding.RoundToTensMonotone | app.py:28 | rounding never reverses the vertical order of two centres |
| Rounding.RoundToTensSeparates | app.py:27-28 | two centres more than ten apart get different keys, in the same order |
| Rounding.RoundToTensTies | app.py:28 | centres 5, 15, 25, 55, -5 and -15 get keys 0, 20, 20, 60, 0 and -20 |
| Reconstruction.Key | app.py:27-28 | a detection's key is the multiple of ten that Python's `round(y_center, -1)` gives for the centre of `box[0]` and `box[2]` |
| Reconstruction.Bucket | app.py:26-28 | bucket `k` holds exactly the detections whose key is `k`, each as many times as the input holds it |
| Reconstruction.KeysInOrder | app.py:26-28 | the dictionary's keys are distinct and are exactly the keys with a non-empty bucket |
| Reconstruction.BucketSnoc | app.py:28 | filing one more detection appends it to its own bucket and leaves every other bucket as it was |
| Reconstruction.BucketStep | app.py:28 | one more detection extends exactly the bucket of its own key |
| Reconstruction.BucketFilledStep | app.py:28 | after one more detection, the non-empty buckets are the old ones and the one for that detection's key |
| Reconstruction.AddKey | app.py:28 | the key list after `self.lines[k]` inserts `k` into the defaultdict: a new key goes last, a known one stays put (stated by `Reconstruction.AddKeyPlaces`) |
| Reconstruction.AddKeyPlaces | app.py:28 | after the insertion `k` is a key, the keys are the old ones and `k`, every old key keeps its position, and the list grows by one exactly when `k` is new |
| Reconstruction.KeysStep | app.py:28 | inserting the key of one more detection keeps the dictionary's keys distinct and in step with the non-empty buckets |
| Reconstruction.KeysSnoc | app.py:28 | filing one more detection adds its key at the end of the key order when the key is new, and changes nothing otherwise |
| KeyOrder.InsertKey | app.py:30 | placing a new key into an ascending list keeps it strictly ascending and adds exactly that key |
| KeyOrder.Ascending | app.py:30 | `sorted(items())` visits each key once, in strictly increasing order, and no other key |
| KeyOrder.AscendingUnique | app.py:30 | two strictly ascending lists holding the same keys are equal, so the ascending order is the only one `sorted` can give |
| KeyOrder.AscendingOne | app.py:30 | a single key is visited alone |
| KeyOrder.AscendingTwo | app.py:30 | two keys first seen in ascending order are visited in that order |
| Reconstruction.LineKeys | app.py:30 | the keys in emission order are strictly increasing and are exactly the keys of the non-empty buckets, one per distinct key |
| Reconstruction.InsertByX | app.py:32 | inserting a detection into a bucket adds exactly that one detection |
| Reconstruction.InsertByXStep | app.py:32 | insertion passes over a detection with a smaller x and stops in front of the first one with an x at least its own |
| Reconstruction.InsertByXAbove | app.py:32 | insertion never puts a smaller x into a list whose x are all at least a bound |
| Reconstruction.InsertByXSorted | app.py:32 | inserting into a list sorted by `box[0][0]` keeps it sorted |
| Reconstruction.InsertHeadSorted | app.py:32 | inserting the first detection into a sorted permutation of the others gives a sorted permutation of all of them |
| Reconstruction.SortByX | app.py:32 | `content.sort(key=lambda x: x[0][0][0])` returns a permutation of the bucket, sorted by the key `X`, the x of the first corner `box[0][0]` (the lambda's `x[0][0][0]`) |
| Reconstruction.SortByXStep | app.py:32 | sorting a non-empty bucket inserts its first detection into the sorted rest |
| Reconstruction.InsertByXFilter | app.py:32 | an inserted detection goes in front of the detections with its own x, and the detections with any other x keep their order |
| Reconstruction.FilterX | app.py:32 | the detections of a list that have one given x, all of them taken from the list |
| Reconstruction.Cell | app.py:26-32 | the detections, in detection order, with one given key and one given x |
| Reconstruction.SortByXStable | app.py:32 | the sort is stable: for every x, the detections with that x keep their original relative order |
| Reconstruction.FirstOfSorted | app.py:32 | in a sorted list, the first element heads its own x-class and no non-empty class has a smaller x |
| Reconstruction.SortedDeterminedByClasses | app.py:32 | a sorted list is determined by its x-classes |
| Reconstruction.StableSortUnique | app.py:32 | any sorted arrangement that keeps every x-class in order equals `SortByX`, so `SortByX` is the stable sort `list.sort` performs |
| Reconstruction.BucketThenX | app.py:26-32 | a bucket's detections that share one x appear in detection order |
| Text.Join | app.py:33 | joining one part gives the part itself, and joining no parts gives the empty string |
| Text.JoinAvoids | app.py:33 | joining never introduces a character other than the separator |
| Text.Split | app.py:33 | splitting gives at least one piece, and no piece contains the separator |
| Text.SplitStep | app.py:33 | a string holding the separator splits into the piece before its first occurrence followed by the pieces after it |
| Text.SplitCons | app.py:33 | a separator-free piece, a separator and a rest split into that piece followed by the pieces of the rest |
| Text.JoinCons | app.py:33 | joining a piece in front of further pieces puts exactly one separator between them |
| Text.JoinSplit | app.py:33 | joining the pieces of a split gives back the string |
| Text.SplitJoin | app.py:33 | splitting a join of separator-free parts gives back the parts |
| Text.JoinSnoc | app.py:33 | joining one more part appends one separator and the part |
| Reconstruction.Texts | app.py:33 | the texts of a bucket, one for each detection, in the bucket's order |
| Reconstruction.BucketsFor | app.py:30-32 | the sorted bucket for each key, in key order |
| Reconstruction.BucketsSnoc | app.py:30-32 | the sorted buckets for all keys are those for all but the last key, followed by the last key's sorted bucket |
| Reconstruction.JoinEach | app.py:33 | one space-joined line for each bucket, in order |
| Reconstruction.LinesFor | app.py:31-33 | line `i` is the space-joined texts of the sorted bucket of key `i` |
| Reconstruction.Line | app.py:31-33 | the line of a key without detections is empty, and the line of a key with one detection is that detection's text |
| Reconstruction.LineBuckets | app.py:30-32 | one non-empty bucket per distinct key (each sorted by x, see `Reconstruction.LineLeftToRight`) |
| Reconstruction.Lines | app.py:30-33 | one line per distinct key, and no line at all for no detections |
| Reconstruction.LinesForSnoc | app.py:31-34 | walking one more key appends that key's line |
| Text.Unlines | app.py:34 | the accumulated text ends with a newline when any line was appended, and is empty when none was |
| Text.UnlinesSnoc | app.py:34 | accumulating one more line appends its text and one newline |
| Text.UnlinesNewlines | app.py:34 | newline-free lines contribute exactly one newline each |
| Text.UnlinesIsJoin | app.py:34 | the accumulated text is the newline-join of the lines followed by one final newline |
| Text.UnlinesSplit | app.py:34 | splitting the accumulated text on newlines gives back the lines, then one empty piece |
| Reconstruction.Transliterate | app.py:35 | pinyin line `i` is the transliteration of text line `i` |
| Reconstruction.TransliterateSnoc | app.py:35 | one more line appends its transliteration |
| Text.IsSpace | app.py:36 | the characters `text.strip()` removes, Python's `str.isspace`: space, tab, newline and carriage return are among them, and no ASCII letter or digit is |
| Text.SpaceRunFrom | app.py:36 | the run of whitespace starting at a position: everything in it is whitespace and the character after it is not |
| Text.SpaceRunBefore | app.py:36 | the run of whitespace ending at a position: everything in it is whitespace and the character before it is not |
| Text.StripLeading | app.py:36 | the longest suffix that does not start with whitespace; everything cut is whitespace |
| Text.StripTrailing | app.py:36 | the longest prefix that does not end with whitespace; everything cut is whitespace |
| Text.Strip | app.py:36 | the stripped text is no longer than its input, and when it is non-empty neither of its ends is whitespace |
| Text.StripSlice | app.py:36 | the stripped text is one contiguous piece of the input |
| Text.StripCutsSpace | app.py:36 | everything `strip` removes from either end is whitespace |
| Text.StripEmpty | app.py:36 | `strip` gives the empty string exactly when every character is whitespace |
| Text.StripUnchanged | app.py:36 | a string with no whitespace at either end strips to itself |
| Text.StripKeepsPrefix | app.py:36 | a text with no whitespace at either end, followed by anything, survives the strip as a prefix of the result |
| Text.TrimmedTwice | app.py:36 | a text with nothing to strip, written twice, still has nothing to strip |
| Text.StripPrefixedLine | app.py:34-36 | a text followed by one accumulated line strips to the text and the line when together they have nothing to strip at either end |
| Text.StripOneLine | app.py:34-36 | one line with nothing to strip, accumulated and stripped, gives back the line |
| Reconstruction.Reconstruct | app.py:30-36 | neither returned string has whitespace at either end; `Ocr` is proved to return exactly this pair |
| Reconstruction.EmptyDetections | app.py:17-36 | no detections give two empty outputs |
| Reconstruction.BucketsForCount | app.py:26-32 | the buckets of distinct keys hold every detection whose key is among them, as often as the input does, and nothing else |
| Reconstruction.KeyHasLine | app.py:26-30 | every detection's key is among the emitted keys |
| Reconstruction.LinesHoldEveryDetection | app.py:26-32 | partition: the emitted buckets together hold exactly the detections, each as often as the input does |
| Reconstruction.DetectionInOneLine | app.py:26-32 | a detection is in line `i` exactly when line `i` is the line of its key |
| Reconstruction.LineOf | app.py:26-32 | the position of a detection's line, whose key is the detection's key and whose bucket holds it |
| KeyOrder.IncreasingPositions | app.py:30 | in the ascending key order a smaller key comes at an earlier position |
| Reconstruction.SeparatedBandsOrdered | app.py:27-30 | top to bottom: a detection whose centre is more than ten above another's is on an earlier line |
| Reconstruction.LineLeftToRight | app.py:32 | each line's bucket is sorted by x, holds exactly its key's detections, and keeps equal-x detections in detection order |
| Reconstruction.LineIsJoinedBucket | app.py:33 | line `i` is the texts of emitted bucket `i` joined by single spaces |
| Reconstruction.LineFreeOf | app.py:33 | a character other than the space that no detection text contains does not appear in a line |
| Reconstruction.LinesFreeOf | app.py:33 | a character other than the space that no detection text contains appears in no line |
| Reconstruction.OneNewlinePerBucket | app.py:34 | when no detection text holds a newline, the text before the strip has exactly one newline per distinct key, and splitting it on newlines gives back the lines |
| Reconstruction.PinyinLineForLine | app.py:34-35 | when neither texts nor transliterations hold a newline, both outputs before the strip split back into their lines, and pinyin line `i` is the transliteration of text line `i` |
| Reconstruction.SingleDetectionBucket | app.py:26-28 | a single detection is filed alone, under its own key |
| Reconstruction.SingleDetectionLine | app.py:26-33 | a single detection makes one line holding its text |
| Reconstruction.SingleDetectionText | app.py:17-36 | the intended result, which `Ocr` is proved equal to: a single detection with nothing to strip comes back as its own text (as written it comes back twice, `App.AsWrittenSingle`) |
| Reconstruction.JoinTwoTexts | app.py:33 | the texts of two detections joined by one space |
| Reconstruction.SameKeyBuckets | app.py:26-28 | two detections with one key are filed under that single key, in detection order |
| Reconstruction.DifferentKeyOrder | app.py:26-28 | two detections with different keys make two keys, in detection order |
| Reconstruction.DifferentKeyBuckets | app.py:26-28 | two detections with different keys each get a bucket of their own |
| Reconstruction.SortTwo | app.py:32 | sorting two detections already in x order leaves them as they are |
| Reconstruction.SameKeyOneLine | app.py:26-33 | two detections with one key form one line, the left one first, with one space between |
| Reconstruction.DifferentKeysTwoLines | app.py:26-33 | two detections with different keys form two lines, the smaller key first |
| Reconstruction.SameKeyText | app.py:26-36 | the intended result, which `Ocr` is proved equal to: two detections in one band come back as their texts joined by a space, the left one first (as written the last detection's text comes in front, `App.AsWrittenStartsWithLastText`) |
| Reconstruction.HelloWorldPlacement | app.py:27-28 | the fragments "你好" (centre 20) and "世界" (centre 22) both get key 20, with "你好" to the left |
| Reconstruction.SameLineExample | app.py:26-33 | those two fragments make the single line "你好 世界" under key 20 |
| Reconstruction.SameLineText | app.py:17-36 | the intended text for those two fragments, which `Ocr` is proved equal to, is "你好 世界" (as written it is "世界你好 世界", `App.AsWrittenSameLine`) |
| Reconstruction.SeparateLinesExample | app.py:26-33 | centres 5 and 55 get keys 0 and 60 and make two lines in that order |
| App.ImgToPinyin.constructor | app.py:14 | a new object has no buckets |
| App.ImgToPinyin.Append | app.py:28 | `self.lines[k].append(d)` appends to the list for `k`; a missing key starts from an empty list and is inserted last; nothing else changes |
| App.GroupedSnoc | app.py:26-28 | one loop step keeps the dictionary equal to the buckets of the detections seen so far |
| App.ImgToPinyin.Group | app.py:23-28 | after `clear()` and the loop, the dictionary maps each key to its bucket, its keys in first-seen order |
| App.SortedUpToStart | app.py:30-31 | before the walk, every key of the ascending order is in the dictionary with its bucket as filed |
| App.EmitStep | app.py:31-33 | sorting the next bucket in place gives that key's line and leaves the other buckets as they were |
| App.AccumulateStep | app.py:34-35 | appending a line and its transliteration extends both accumulated texts by that line |
| App.SortedUpToEnd | app.py:31-32 | after the walk every bucket in the dictionary is sorted |
| App.WalkStart | app.py:21-31 | the walk starts with the buckets as filed and both texts empty |
| App.WalkStep | app.py:31-35 | sorting the next bucket and appending its joined line and that line's transliteration walks one key further |
| App.WalkedAllLines | app.py:30-33 | walking every key in ascending order produces exactly the lines |
| App.WalkEnd | app.py:30-35 | after every key, each bucket is sorted and the two texts hold all the lines and their transliterations |
| App.WalkLines | app.py:30-35 | the walk leaves every bucket sorted and accumulates exactly the lines, and their transliterations, in key order |
| App.ImgToPinyin.Ocr | app.py:17-36 | returns the stripped lines and the stripped transliterated lines; the object keeps every bucket, sorted, with its keys in first-seen order (the corrected `ocr`, accumulator starting empty; as written see `App.OcrAsWritten`) |
| App.OcrAsWritten | app.py:21-36 | as written, the pinyin output is the intended one, and the result for no detections is two empty strings |
| App.AsWrittenTextAppends | app.py:21-36 | as written, the returned text is the last detection's text followed by the accumulated lines, stripped |
| App.AsWrittenStartsWithLastText | app.py:21-36 | as written, whenever the last detection's text has nothing to strip, the returned text starts with it |
| App.AsWrittenOneLine | app.py:21-36 | as written, detections making the one line `l` whose last text is `t` give back `t` followed by `l` |
| App.AsWrittenSingle | app.py:21-36 | as written, a single detection comes back with its text twice |
| App.WorldThenLine | app.py:26-34 | "世界" in front of the line "你好 世界" reads "世界你好 世界", with nothing to strip |
| App.AsWrittenSameLine | app.py:21-36 | as written, "你好" and "世界" on one line give "世界你好 世界", where the intended text is "你好 世界" |
| App.ShadowedTextRepeats | app.py:21-36 | one detection "你好" gives "你好你好" as written, where the intended text is "你好" |

## Left out

- The OCR reader (`easyocr.Reader`, `readtext`) and the image conversion (`np.array(img)`) at app.py:13 and 19-24 are not modelled: their answer is the parameter `result`.
- `pinyin.get` is not modelled: it is the parameter `pinyin`, applied to each joined line.
- `translate` (app.py:38-45) is not modelled: it is a network call to a translation service. `main` (app.py:48-107) is the web user interface.
- `async`, the translator object and the streamlit session are left out: nothing in the line reconstruction depends on them.
- Coordinates are integers. The code's `/ 2` yields a float. The model rounds the integer sum `s` at `s / 2` exactly, so it does not model fractional coordinates or float rounding error.
- `conf` is carried as `real` and never read, as in the code.
- App.ImgToPinyin.Ocr: the in-place sort of each list inside `self.lines` is modelled as a new map of sorted buckets, which `Ocr` assigns to `lines` after the walk. Aliasing between the dictionary's lists and `content` is not modelled.
- Keys equal to the negative zero `-0.0` that Python's `round` can return are modelled as the integer 0. The two compare equal as dictionary keys.
- A box with fewer than three corners cannot be passed in, because the `Box` type excludes it. The code would raise `IndexError` there.

## Findings

| source | as written | input that shows it | evidently intended | confidence | as-written member | corrected member |
|---|---|---|---|---|---|---|
| app.py:21-26 | the loop `for box, text, conf in result` reuses the name `text`, so after the loop the accumulator holds the last detection's text, and the lines are appended to it | one detection whose text is "你好": the returned text is "你好你好" | the accumulator starts empty, and the returned text is "你好" | not executed | App.OcrAsWritten | App.ImgToPinyin.Ocr |
