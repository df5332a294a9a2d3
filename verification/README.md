# mmbeliefs: a Dafny model of the benchmark's pure core

mmbeliefs is a multiple-choice visual question-answering benchmark. Each
question shows an image of a symbol and asks which ideology the symbol
relates to. The repository is a chain of Python scripts:

- a scraper collects symbol cards and downloads their images;
- `standardize_images.py` rasterises SVGs, pads every image onto a 448x448
  canvas and warns about large files;
- `save_labels.py` turns hand-sorted label folders into an image-to-labels
  map;
- `generate_questions.py` builds one five-option question per image;
- the evaluation hooks in `lmms-eval-files/mmbeliefs_mcq/utils.py` score a
  model's reply against the question.

This project models the decision logic of those scripts as pure Dafny
functions over strings and sequences, and proves what the scripts promise.
Randomness, image libraries and the file system become parameters:

- the sampled indices and the shuffle are a `Draw`;
- PIL's `thumbnail` result, image dimensions and file sizes are a `Disk`;
- the size of the JPEG saved at each quality is a function `sizeAt`;
- file writes are a list of `Effect`s, and the files a run has written so far
  are a map from path to `Image`, which records where each file's content
  came from.

Modules, one per script, plus shared helpers:

| module | models |
|---|---|
| `Scoring` | `normalize_text`, `extract_choice_letter`, `multiple_choice_accuracy`, the prompt and result hooks |
| `ScoringExamples` | the documented replies and options, evaluated with the model |
| `Questions` | the label pools, sampling, the shuffle, the option list, the question text, the whole task list |
| `Standardize` | `resize_with_padding` geometry, the size checks, `compress_image`, `prepare_dataset` |
| `Labels` | the label-folder inversion of `save_labels.py` |
| `Scraper` | style-URL extraction, the content-type classifier, the download file name |
| `Text`, `Paths` | Python's `str` operations on ASCII and `os.path` on POSIX |
| `Dataset`, `Results` | the scraped record type, `Option` and `Result` |

Where the design description of the system and the code disagree, the model
follows the code:

- The description calls the question generator a greedy balancer that picks,
  for each question, the letter permutation with the least accumulated
  positional imbalance. The code only calls `random.shuffle` on a running
  letter list (generate_questions.py:28). The model takes the shuffle as an
  input and has no balancer.
- The description says external labels are never ground truth for any
  record. The code never checks this, so `Questions.WellFormed` promises only
  that the external option comes from the external list. It may coincide
  with one of the record's own labels.
- The description mentions padding on a contrasting background and 4 or 5
  options. The code pads on black and always builds 5 options.

## Model

| member | source | states |
|---|---|---|
| Scoring.RemovePunct | lmms-eval-files/mmbeliefs_mcq/utils.py:18 | no character of `string.punctuation` survives; text without upper-case letters gains none; text without punctuation is unchanged |
| Scoring.CollapseSpace | lmms-eval-files/mmbeliefs_mcq/utils.py:19 | the result is empty exactly when the input is; a leading whitespace run becomes one blank, any other first character is kept |
| Scoring.CollapseSpaceShape | lmms-eval-files/mmbeliefs_mcq/utils.py:19 | after the whitespace collapse every whitespace character is a blank, no two whitespace characters are adjacent, and no upper-case letter or punctuation is introduced |
| Scoring.CollapseSpaceFixes | lmms-eval-files/mmbeliefs_mcq/utils.py:19 | text whose whitespace is already single blanks is left unchanged by the collapse |
| Scoring.RemovePunctAppend | lmms-eval-files/mmbeliefs_mcq/utils.py:18 | punctuation is removed character by character: removing it from a concatenation is removing it from each part |
| Scoring.RemovePunctOfChar | lmms-eval-files/mmbeliefs_mcq/utils.py:18 | a single character is dropped exactly when it is in `string.punctuation`, and otherwise kept as it is; with the previous row this fixes the result for every text |
| Scoring.CollapseSpaceOfRun | lmms-eval-files/mmbeliefs_mcq/utils.py:19 | a non-empty run of whitespace on its own becomes one blank |
| Scoring.CollapseSpaceOfChar | lmms-eval-files/mmbeliefs_mcq/utils.py:19 | a character that is not whitespace is kept as it is |
| Scoring.CollapseSpaceAppend | lmms-eval-files/mmbeliefs_mcq/utils.py:19 | cutting a text anywhere except inside a whitespace run, the collapse of the whole is the collapse of the two parts joined; with the two previous rows this fixes the result for every text |
| Scoring.CollapseSpaceKeepsNonSpace | lmms-eval-files/mmbeliefs_mcq/utils.py:19 | the collapse keeps every character that is not whitespace, in order, and adds none |
| Scoring.NormalizeKeepsWords | lmms-eval-files/mmbeliefs_mcq/utils.py:10-20 | the characters of the normal form that are not blanks are exactly those of the lower-cased text without punctuation, in order |
| Scoring.StripKeepsShape | lmms-eval-files/mmbeliefs_mcq/utils.py:19 | stripping clean, single-blank text leaves a string with no whitespace at either end: the full normal form |
| Scoring.Normalize | lmms-eval-files/mmbeliefs_mcq/utils.py:10-20 | every result has no upper-case ASCII letter, no punctuation, only single blanks, and no whitespace at either end |
| Scoring.NormalizeFixesNormalized | lmms-eval-files/mmbeliefs_mcq/utils.py:10-20 | a string already in that normal form is its own normalisation |
| Scoring.NormalizeIdempotent | lmms-eval-files/mmbeliefs_mcq/utils.py:10-20 | normalising twice equals normalising once |
| Scoring.NormalizeAfterLower | lmms-eval-files/mmbeliefs_mcq/utils.py:17 | texts that agree after lower-casing have the same normal form |
| Scoring.ExtractChoiceLetter | lmms-eval-files/mmbeliefs_mcq/utils.py:23-31 | a letter is returned if and only if the first non-whitespace character is in A-E or a-e; it is then that character upper-cased, always in A..E |
| Scoring.ChoiceIgnoresCase | lmms-eval-files/mmbeliefs_mcq/utils.py:30-31 | swapping the case of the first non-whitespace character never changes the extracted letter |
| Scoring.ChoiceIgnoresTail | lmms-eval-files/mmbeliefs_mcq/utils.py:30-31 | whatever follows the first non-whitespace character never changes the extracted letter |
| Scoring.MultipleChoiceAccuracy | lmms-eval-files/mmbeliefs_mcq/utils.py:34-58 | the score is 0 or 1; it is 0 without a letter or with a letter past the last option; it is 1 exactly when the selected option's normal form equals that of some ground-truth answer |
| Scoring.AccuracyOfSelected | lmms-eval-files/mmbeliefs_mcq/utils.py:50-58 | once the letter is known and names an option, the score depends only on whether that option matches a ground-truth answer |
| Scoring.PromptPart | lmms-eval-files/mmbeliefs_mcq/utils.py:85-86 | missing keyword arguments or a missing key give the empty string; a present key gives its value |
| Scoring.DocToText | lmms-eval-files/mmbeliefs_mcq/utils.py:74-87 | the prompt is the pre-prompt, the question and the post-prompt, in that order and nothing else; without keyword arguments it is the bare question |
| Scoring.ProcessResults | lmms-eval-files/mmbeliefs_mcq/utils.py:90-114 | a result list of any length other than one is rejected with its length; otherwise the exact match is the accuracy of the single prediction, which is also echoed as the submission |
| Scoring.ProcessResultsVal | lmms-eval-files/mmbeliefs_mcq/utils.py:134-148 | the validation hook accepts exactly one prediction and reports its accuracy, at most 1 |
| Scoring.ProcessResultsTest | lmms-eval-files/mmbeliefs_mcq/utils.py:117-131 | the test hook accepts exactly one prediction and submits it unchanged |
| ScoringExamples.ExtractChoiceExamples | lmms-eval-files/mmbeliefs_mcq/utils.py:23-31 | the replies the function documents, "C" and "C) Fascist", give C; a lower-case letter after leading blanks, "  b: x", gives B |
| ScoringExamples.ExtractChoiceEdgeExamples | lmms-eval-files/mmbeliefs_mcq/utils.py:30-31 | "Banana" gives B because trailing text is ignored; "Z" and the empty reply give no letter |
| ScoringExamples.ScoreOfLeadingLetter | lmms-eval-files/mmbeliefs_mcq/utils.py:46-58 | a reply starting with a choice letter is scored by the option that letter names, whatever follows |
| ScoringExamples.AccuracyExampleCorrect | lmms-eval-files/mmbeliefs_mcq/utils.py:34-58 | with options Fascist, Monarchist, Anarchist, None of the above and ground truth "fascist", a reply beginning with A (such as "A) Fascist") scores 1 |
| ScoringExamples.AccuracyExampleWrong | lmms-eval-files/mmbeliefs_mcq/utils.py:46-58 | in the same example the reply "b" selects Monarchist and scores 0 |
| ScoringExamples.AccuracyExampleNoOption | lmms-eval-files/mmbeliefs_mcq/utils.py:46-52 | in the same example "Z", the empty reply and "E" (a letter past the four options) score 0 |
| Questions.Dedup | generate_questions.py:10 | the pool holds every label once and exactly the labels of the input |
| Questions.BuildPools | generate_questions.py:5-15 | duplicate internal labels fail first, then duplicate external labels; on success the internal pool is the duplicate-free set of all records' labels and the external pool is the file's list |
| Questions.PoolsIgnoreInternalFile | generate_questions.py:7-10 | once it passes the duplicate check, the content of the internal label file has no effect, because the pool is rebuilt from the records |
| Questions.OwnPool | generate_questions.py:24 | the internal distractor pool holds exactly the pool labels that are not the record's own |
| Questions.Sample | generate_questions.py:25-27 | a sample exists exactly when the pool is non-empty, and it comes from the pool |
| Questions.SampleReachesAll | generate_questions.py:25-27 | every element of the pool is drawn by some choice of draw |
| Questions.Shuffle | generate_questions.py:28 | the shuffle keeps the three letters and keeps them a permutation of A, B, C |
| Questions.ShuffleReachesAll | generate_questions.py:28 | all six orders of the letters are reachable from any starting order |
| Questions.SortByLetter | generate_questions.py:37 | sorting by letter keeps the same options (as a multiset) and leaves them in letter order |
| Questions.SortedUnique | generate_questions.py:37 | an option list with distinct letters has only one sorted arrangement |
| Questions.SortRawOptions | generate_questions.py:30-37 | the sorted option list has the correct label under `abc[0]`, the internal distractor under `abc[1]`, the external one under `abc[2]`, then D and E |
| Questions.Placed | generate_questions.py:30-36 | the five candidates hold the correct label, the internal distractor and the external distractor at the indices of their letters, then "None of the above" and "I don't know" |
| Questions.QuestionTextLines | generate_questions.py:38-39 | the question text is the fixed header followed by the option lines; splitting the rest on newlines gives back exactly one "L) text" line per option |
| Questions.BuildQuestion | generate_questions.py:24-53 | a question is built exactly when all three samples can be drawn, otherwise the first failing sample is reported; every built question is well formed and its target is the first shuffled letter |
| Questions.AssembleWellFormed | generate_questions.py:38-53 | the record written for drawn labels splits A-C between the correct answer and the two distractors, puts D and E on the fixed options, and copies the record's labels, image, location and title |
| Questions.TargetScoresOne | generate_questions.py:29-48 | a reply consisting of a well-formed question's target letter scores 1 under the benchmark's own scoring |
| Questions.SlotsIndex | generate_questions.py:22-23 | image j of record k is visited at position (images of earlier records) + j |
| Questions.SlotOrigin | generate_questions.py:22-23 | every pass of the loop belongs to some image of some record |
| Questions.GenerateFromOutcome | generate_questions.py:22-27 | the passes succeed exactly when every record met can be asked about; otherwise the error is that of the first record that cannot |
| Questions.GenerateFromWellFormed | generate_questions.py:22-53 | every question of a successful run is well formed for its own record and image |
| Questions.GenerateAppend | generate_questions.py:20-28 | running the loop over two stretches of records equals running it over the first and continuing from the letter order it leaves behind |
| Questions.Generate | generate_questions.py:20-53 | a successful run yields exactly one question per image, each well formed for its pass |
| Questions.GenerateSucceeds | generate_questions.py:22-27 | the run succeeds exactly when every record with an image has a label, an internal distractor and an external label to draw |
| Questions.GenerateCoversEveryImage | generate_questions.py:22-40 | image j of record k gets a question about that image at position (images of earlier records) + j: one question per image, in record order, then image order |
| Questions.GenerateLoop | generate_questions.py:20-53 | the imperative nested loop computes the same result as the recursive definition |
| Questions.GenerateTasks | generate_questions.py:20-53 | the loop over the records yields the question list, one question per image |
| Questions.GenerateTaskData | generate_questions.py:5-53 | duplicate internal labels abort first, then duplicate external labels; with both label files duplicate-free, the run succeeds exactly when every record with an image can draw its three labels, and otherwise fails with the error of a record that cannot; a successful run has one question per image, question i well formed for the record and image of pass i |
| Standardize.ResizeWithPadding | standardize_images.py:28-42 | the input path is always returned; nothing is written exactly when the image already has the target size; otherwise the padded canvas is the target, the content is the thumbnail, it is centred, it is never cropped when the thumbnail fits, and the file goes to `join(out_dir, basename(path))` |
| Standardize.SmallImagesArePadded | standardize_images.py:33-40 | an image smaller than the target is pasted at its own size, uncropped |
| Standardize.PaddedImageHasTargetSize | standardize_images.py:36-40 | whenever a file is written, its canvas is the target size and the content is uncropped and centred |
| Standardize.ResizeWritesInPlace | standardize_images.py:41 | for a non-empty output directory, a file name without '/' recorded as `dir + '/' + name` is padded onto the file that path names, under the same spelling when the directory does not end in '/'; for the empty directory the padding goes to a different file than the recorded one |
| Standardize.CompressAcceptsOnlyValid | standardize_images.py:18-26 | every size the compressor accepts passes the size check; the only size that passes the check but is refused by the compressor is exactly the limit |
| Standardize.CompressedPath | standardize_images.py:15-16 | the intended output name inserts "_compressed" just before the extension, adding 11 characters |
| Standardize.CompressedPathKeepsExtension | standardize_images.py:15-16 | the compressed name has the same extension as the input, and its root is the input's root followed by "_compressed" |
| Standardize.CompressedPathAsWrittenAgrees | standardize_images.py:15-16 | when the extension first occurs where it ends the path, the script's `replace` gives the intended name |
| Standardize.CompressedPathAsWrittenWithoutExtension | standardize_images.py:15-16 | for a non-empty path without an extension the script's `replace` inserts "_compressed" around every character, so it differs from the intended name |
| Standardize.CompressedPathAsWrittenOfImg | standardize_images.py:15-16 | for "img" the script writes "_compressedi_compressedm_compressedg_compressed" instead of "img_compressed" |
| Standardize.CompressImage | standardize_images.py:10-21 | qualities 95, 90, ..., 15 are tried in decreasing order, and the first whose size is under the limit is kept; the path returned is the script's own `in_path.replace(suffix, '_compressed' + suffix)`, which is the intended name when the extension first occurs where it ends the path and is not the intended name for a non-empty path without an extension; if no quality fits, nothing is returned and every quality was refused |
| Standardize.CompressImageGivesUpOnlyWhenNothingFits | standardize_images.py:13-21 | the compressor gives up exactly when no quality from 95 down to 15 gives a size under the limit |
| Standardize.PngNameOfSvg | standardize_images.py:56 | the name an SVG is rasterised to ends in ".png" |
| Standardize.StandardPath | standardize_images.py:53-62 | a path is recorded as the output directory, a '/', and its own file name, with ".svg" names replaced by ".png" |
| Standardize.SvgBecomesPng | standardize_images.py:53-58 | an SVG is recorded under a ".png" path |
| Standardize.StandardPaths | standardize_images.py:50-66 | each item keeps the length and order of its image list, image by image |
| Standardize.ConvertEffect | standardize_images.py:53-63 | SVGs are rasterised and every other image is copied, always from the original path |
| Standardize.ConversionWritesRecordedPath | standardize_images.py:56-62 | a copy always goes to the recorded path; for a non-empty output directory each rasterised or copied file lands on the file its recorded path names, under the same spelling when the directory does not end in '/'; for the empty directory an SVG is rasterised into a different file than the recorded one |
| Standardize.ConversionsOnlyConvert | standardize_images.py:51-65 | the first loop only rasterises and copies |
| Standardize.ConversionsWriteRecordedPaths | standardize_images.py:51-65 | for a non-empty output directory, the first loop of an item changes no file other than those its recorded paths name |
| Standardize.ApplyAllAppend | standardize_images.py:49-72 | replaying two stretches of effects in turn is replaying them joined |
| Standardize.PadIntoPadsOffSize | standardize_images.py:33-35 | `resize_with_padding` writes a padded image exactly when the image it opens does not already have the 448x448 size |
| Standardize.PadIntoInPlace | standardize_images.py:41 | `resize_with_padding` saves over the file it opened whenever joining that path's file name onto the output directory names that same file |
| Standardize.CheckOne | standardize_images.py:68-72 | the checks of one path pad it when padding is due and warn exactly when it is too large, and do nothing else |
| Standardize.CheckLoopReplays | standardize_images.py:68-72 | replaying the second loop's effects on the files it starts from gives the files it leaves |
| Standardize.CheckLoopSized | standardize_images.py:68-71 | each size check reads the padded image when the padding was saved over the file it was opened from, and otherwise the very image `resize_with_padding` opened |
| Standardize.CheckOneAccounted | standardize_images.py:68-72 | one pass only pads and warns, and its padding and warning are exactly those its own check calls for |
| Standardize.WarningsAppend | standardize_images.py:68-72 | warnings accounted for by two stretches of the loop are accounted for by the two together |
| Standardize.PaddingsAppend | standardize_images.py:68-69 | paddings accounted for by two stretches of the loop are accounted for by the two together |
| Standardize.CheckLoopWarns | standardize_images.py:68-72 | every warning names the size shown and a path whose check found the file then there too large, and every such check has its warning |
| Standardize.CheckLoopResizes | standardize_images.py:68-69 | the second loop only pads and warns; every padding is the one made of the image some check opened, and every image that needs padding gets it |
| Standardize.CheckLoopKeepsOthers | standardize_images.py:68-69 | when each padding is saved over the file its path names, under any spelling, the loop changes only the files the visited paths name |
| Standardize.CheckLoopStandardizes | standardize_images.py:68-69 | when each padding is saved over the file its path names, every file a visited path names is left holding a 448x448 image |
| Standardize.CheckLoopSizesStandard | standardize_images.py:68-71 | when each padding is saved over the file its path names, every size check reads a 448x448 image |
| Standardize.CheckLoopFirstVisit | standardize_images.py:68-69 | when each padding is saved over the file its path names, the first visit of a file, under any spelling, opens what that file held before the loop |
| Standardize.CheckLoopPadsOnce | standardize_images.py:68-69 | when each padding is saved over the file its path names, a later visit of the same file, under any spelling, finds it already 448x448 and pads nothing |
| Standardize.CheckLoopIgnoresLimits | standardize_images.py:71-72 | the size shown and the size checked change only the warnings, never the checks or the files |
| Standardize.CheckLoopReadAt | standardize_images.py:68-69 | the image the k-th check opens is the one found by padding the paths before it in turn, each in the files the previous padding left |
| Standardize.ReadAtKeepsSized | standardize_images.py:33-41 | a file that already holds a 448x448 image still holds one when a later visit of it opens it, whatever was padded in between |
| Standardize.ReadAtPadsOnce | standardize_images.py:33-69 | when paddings are saved over the files their paths name, a file visited a second time, under any spelling, is not padded again |
| Standardize.TrailingSlashPadsInPlace | standardize_images.py:41-72 | with output directory "out/", "x.jpg" is recorded as "out//x.jpg", padded over "out/x.jpg", which is the same file, and with a 1 MiB padding no warning is printed |
| Standardize.SingleImageInEmptyDir | standardize_images.py:41-69 | with an empty output directory, an image "x.jpg" is copied to and recorded as "/x.jpg", but its padding is saved to "x.jpg", so the recorded file keeps the unpadded image |
| Standardize.PrepareItem | standardize_images.py:49-66 | an item keeps every field except its image list, which is replaced by the recorded output paths; it is checked once per recorded path, in order |
| Standardize.PrepareItemReplays | standardize_images.py:49-72 | replaying an item's effects gives the files it leaves |
| Standardize.PrepareItemWarns | standardize_images.py:68-72 | an item's warnings are exactly those its size checks call for; an oversize image stays in the item, whose images are exactly its recorded paths |
| Standardize.PrepareItemResizes | standardize_images.py:51-69 | an item's paddings are exactly those `resize_with_padding` makes of the images its checks open; its conversions neither pad nor warn |
| Standardize.PrepareItemStandardizes | standardize_images.py:51-69 | for a non-empty output directory, an item leaves a 448x448 image in each file its recorded paths name and no other file changes |
| Standardize.PrepareItemSizesStandard | standardize_images.py:68-71 | for a non-empty output directory, every size check of an item reads a 448x448 image |
| Standardize.PrepareItemPadsOnce | standardize_images.py:51-69 | for a non-empty output directory, the first check of a file opens what the item's conversions left there, and a file the item lists twice, under any spellings, is padded at most once |
| Standardize.PrepareWith | standardize_images.py:48-72 | the records keep their number and order, each with its image list replaced by the recorded paths; each item starts from the files the previous one left |
| Standardize.CheckedPathsAppend | standardize_images.py:68 | the paths checked by two stretches of the run, joined, are the paths of the joined checks |
| Standardize.PrepareChecksEveryPath | standardize_images.py:49-69 | the run checks every recorded path once, in the order the records list them |
| Standardize.PrepareConverts | standardize_images.py:49-63 | every image of every record is rasterised or copied |
| Standardize.PrepareReplays | standardize_images.py:49-72 | replaying the run's effects gives the files it leaves |
| Standardize.PrepareWarns | standardize_images.py:68-72 | across the dataset, the warnings are exactly those the size checks call for, each checked against the files as they are at that point of the run |
| Standardize.PrepareResizes | standardize_images.py:68-69 | across the dataset, the paddings are exactly those `resize_with_padding` makes of the images the checks open |
| Standardize.PaddingOverwritesStandardImages | standardize_images.py:41-69 | for a non-empty output directory, every padded file is written over the file named by the recorded path it was opened from, under the same spelling when the directory does not end in '/' |
| Standardize.StandardPathInPlace | standardize_images.py:41-62 | for a non-empty output directory, joining a recorded path's file name onto the directory names the recorded file, and gives the recorded path back when the directory does not end in '/' |
| Standardize.PrepareSizesStandard | standardize_images.py:49-71 | for a non-empty output directory, every size check of the run reads a 448x448 image |
| Standardize.PrepareKeepsOthers | standardize_images.py:49-69 | for a non-empty output directory, no file outside those the recorded paths name changes |
| Standardize.PrepareStandardizes | standardize_images.py:49-69 | for a non-empty output directory, the run leaves a 448x448 image in every file a recorded path names, even one a later item overwrote |
| Standardize.PrepareIgnoresLimits | standardize_images.py:71-72 | the size shown and the size checked change only the warnings, never the records, the checks or the files |
| Standardize.PrepareDatasetAsWritten | standardize_images.py:44-72 | as written, every recorded path is checked, and the warning names `max_size_mb` but fires exactly for checks that find more than the default 5 MiB |
| Standardize.PrepareDataset | standardize_images.py:44-72 | as intended, every recorded path is checked, and the warning fires exactly for checks that find more than `max_size_mb` MiB |
| Standardize.WarningIgnoresMaxSize | standardize_images.py:71-72 | with a limit above 5 MiB, an image between 5 MiB and the limit is reported as too large by the script but not by the intended version |
| Standardize.SingleImageItem | standardize_images.py:49-72 | for a non-empty output directory, an item with one image that is not an SVG copies it to its recorded path, checks it there once, and leaves it there padded exactly when it is not 448x448 |
| Standardize.WarningForImageWithinLimit | standardize_images.py:71-72 | with `max_size_mb` 10, a 6 MiB image "a.jpg" standardised into "out" is reported as larger than 10 MB although it is within the limit |
| Standardize.CopiedTwice | standardize_images.py:62-63 | copying a file twice onto a different file leaves the source's content there |
| Standardize.RepeatedNamePaddedOnce | standardize_images.py:51-69 | for a non-empty output directory, an item listing a file name twice copies it twice, opens the copy at the first check, and pads nothing at the second |
| Standardize.RepeatedImagePaddedOnce | standardize_images.py:51-69 | for "x.jpg" listed twice at 100x100, the first check pads it and the second does not |
| Standardize.SharedPathLastWins | standardize_images.py:49-72 | for a non-empty output directory, two items whose single images share a recorded path both record it, each checks it once, and the second item's image is what the run leaves there |
| Standardize.PrepareTwo | standardize_images.py:49-72 | a run over two items is the first item's pass followed by the second's, started from the files the first leaves |
| Standardize.SharedNameOverwritten | standardize_images.py:49-72 | "a/x.jpg" and "b/x.jpg" in two items are both recorded as "out/x.jpg", and the run leaves the padded "b/x.jpg" there, so the first record points at the second item's image |
| Paths.BasenameOfJoin | standardize_images.py:56-58 | the basename of a name joined onto a directory is the name again |
| Paths.FileKeyDoubleSlash | standardize_images.py:41-58 | a doubled '/' names the same file as a single one |
| Paths.JoinPathSameFile | standardize_images.py:41-62 | joining a relative name onto a non-empty directory names the file `dir + '/' + name`, and spells it that way when the directory does not end in '/' |
| Paths.JoinPathOntoEmpty | standardize_images.py:41-62 | joining a name without '/' onto the empty directory gives the name itself, a different file than `'' + '/' + name` |
| Labels.AllFiles | save_labels.py:15-20 | the files are exactly those of some category folder |
| Labels.CategoriesOf | save_labels.py:22-27 | a file's categories are exactly the folders that hold it |
| Labels.CategoriesOfDistinct | save_labels.py:22-27 | distinct folder names give every file distinct categories |
| Labels.WithoutOther | save_labels.py:38-41 | dropping "other" keeps exactly the other categories |
| Labels.KeptCategoriesInListingOrder | save_labels.py:35-41 | a file's kept categories appear in the order of the folder listing |
| Labels.KeepsACategory | save_labels.py:29-41 | a file not filed under "other" alone keeps at least one category |
| Labels.LabelMap | save_labels.py:35-41 | the map's keys are all files, each mapped to its categories without "other" |
| Labels.SaveLabels | save_labels.py:14-41 | the script stops at its assertion exactly when some file is filed only under "other"; the model's error then carries exactly those files, which the script collects in `only_other` but does not print, as its assertion message is fixed; otherwise the keys are all files, each value lists exactly the file's folders other than "other", non-empty, duplicate-free and in listing order |
| Scraper.StyleUrl | scraper.py:120 | extraction fails exactly when the style has no "url(", with that style as the error; a URL never contains ')' and never begins or ends with a double quote |
| Scraper.SplitLengthMeansContains | scraper.py:120 | `split` yields a second piece exactly when the separator occurs |
| Scraper.StyleUrlOfUrl | scraper.py:120 | a style `P url(X) S`, with no "url(" in P and X free of ')' and of "url(", yields X with its surrounding double quotes stripped, whatever follows |
| Scraper.StyleUrlOfQuotedUrl | scraper.py:120 | a style `...url("U")...` with nothing like "url(" before it and no quote or parenthesis in U yields exactly U |
| Scraper.ImageUrls | scraper.py:116-121 | the URLs are extracted one per style, in document order; the first style without "url(" aborts the scrape |
| Scraper.ExtensionFor | scraper.py:174-184 | the extension is always jpg, png, webp or svg; jpg exactly when the lower-cased header mentions "jpeg" or "jpg"; webp or svg only when the header mentions it and no earlier type; a missing header gives png |
| Scraper.ExtensionIgnoresCase | scraper.py:174 | the classification does not depend on the header's case |
| Scraper.ExtensionOfSvgHeader | scraper.py:174-182 | "image/svg+xml" is classified as svg |
| Scraper.ExtensionOfUpperCaseJpeg | scraper.py:174-176 | "IMAGE/JPEG" is classified as jpg |
| Scraper.ImageFilename | scraper.py:185 | the file name ends with "." and the extension |
| Scraper.ImageFilenameInDir | scraper.py:185 | the file name is the directory, a '/', and a slash-free `index_imgindex.ext` |
| Scraper.ImageFilenameInjective | scraper.py:185 | different (record, image, extension) triples are saved under different names |
| Scraper.DownloadedSvgIsRasterised | scraper.py:175-185 | a download is rasterised by the standardisation exactly when it was saved as svg |
| Scraper.DownloadedImageStandardPath | scraper.py:185 | a download that is not an SVG is recorded under the same file name in the output directory |

## Left out

- Browser automation, HTTP downloads and DOM selection in scraper.py: they depend on a live web site. Styles and content-type headers are inputs.
- The failure path at scraper.py:188-190 records a stale or undefined `filename` after a failed download. Only the successful download is modelled.
- PIL and cairosvg pixel work (LANCZOS resampling, pasting and saving pixels, rasterisation). `thumbnail` is a parameter `thumb`, constrained by `IsThumbnail` in the geometry lemmas (`Standardize.SmallImagesArePadded`, `Standardize.PaddedImageHasTargetSize`) and left free at the dataset level (`Disk.thumb`), where only the 448x448 canvas of a padded image is read; image sizes are parameters, and only the geometry and the written paths are modelled.
- Upscaling: the no-cropping test computes a ratio that assumes images are scaled up (test_standardize_images.py:70), but the code only calls `thumbnail`, which never enlarges. The model claims no upscaling.
- The blue-square counting of the no-cropping test depends on interpolation and is not modelled. The uncropped-and-centred part it checks is `Standardize.PaddedImageHasTargetSize`.
- The exact-size test case expects an output file in the test output directory (test_standardize_images.py:46-50). The code returns early and writes nothing for that case; the model follows the code.
- File-system failures. A missing or unreadable image, or a failing `Image.open`, `cairosvg.svg2png` or `shutil.copy` (standardize_images.py:33, 57, 63), raises and aborts the script. The model assumes every read and write succeeds.
- `shutil.copy` of a file onto itself raises `SameFileError` (standardize_images.py:63, for an image that already sits at its recorded path). The model treats that copy as rewriting the file unchanged.
- File contents. A file is modelled by where its content came from (`Image`: the original file, a rasterisation, a padding). Its dimensions, thumbnail size and byte size are functions of that `Image`, so two files with the same provenance have the same sizes.
- The empty output directory. With `images_output_dir = ""` the script records "/x.jpg" (line 62) and copies there, but `resize_with_padding` saves the padding to "x.jpg" (line 41); an SVG is rasterised into "x.png" (line 56) but recorded as "/x.png" (line 58). `Standardize.ResizeWritesInPlace`, `Standardize.ConversionWritesRecordedPath` and `Standardize.SingleImageInEmptyDir` state this case. The members below require a non-empty output directory for that reason; a trailing '/' is covered.
- Standardize.ConversionsWriteRecordedPaths: requires a non-empty output directory, because with "" an SVG is rasterised into "x.png", which no recorded path names.
- Standardize.StandardPathInPlace: requires a non-empty output directory, because with "" joining the file name gives "x.jpg", not the recorded "/x.jpg".
- Standardize.PaddingOverwritesStandardImages: requires a non-empty output directory, because with "" the padding of "/x.jpg" is written to "x.jpg", not over the file it was opened from.
- Standardize.PrepareItemStandardizes: requires a non-empty output directory, because with "" the padding lands in "x.jpg", a file outside the recorded paths, and the recorded "/x.jpg" keeps the unpadded copy.
- Standardize.PrepareItemSizesStandard: requires a non-empty output directory, because with "" the size check of "/x.jpg" reads the unpadded copy.
- Standardize.PrepareItemPadsOnce: requires a non-empty output directory, because with "" a repeated "/x.jpg" is never padded in place, so the second check pads again.
- Standardize.PrepareSizesStandard: requires a non-empty output directory, for the reason given for `Standardize.PrepareItemSizesStandard`.
- Standardize.PrepareKeepsOthers: requires a non-empty output directory, because with "" the padding changes "x.jpg", which no recorded path names.
- Standardize.PrepareStandardizes: requires a non-empty output directory, for the reason given for `Standardize.PrepareItemStandardizes`.
- Standardize.SingleImageItem: requires a non-empty output directory; `Standardize.SingleImageInEmptyDir` states the empty case.
- Standardize.RepeatedNamePaddedOnce: requires a non-empty output directory, because with "" the copy is never padded in place, so the second check pads again.
- Standardize.SharedPathLastWins: requires a non-empty output directory, because with "" the paddings land outside the recorded path, so what the run leaves there is the second item's unpadded copy.
- File identity. Paths name the same file exactly when they agree after collapsing runs of '/' (`Paths.FileKey`). "./", "..", symbolic and hard links are not modelled, so two such spellings of one file count as different files.
- `compress_image` is never called by `prepare_dataset`. It is modelled on its own, with the JPEG size at each quality as the function `sizeAt`.
- `max_size_mb` is a natural number. Non-integer values, which Python would accept, are not modelled.
- The PRNG (`random.seed`, `random.sample`, `random.shuffle`): each draw is an input, and every value the PRNG could choose is reachable (`SampleReachesAll`, `ShuffleReachesAll`).
- The iteration order of Python sets (`list(internal_ideologies_set - ...)`, `list(set(all_files))`) is unspecified. Pools use first-appearance order; the label map is a Dafny `map`, whose key order JSON output would fix.
- Directory listings are assumed to have distinct folder names, as a real directory does (`requires NoDuplicates(Names(listing))` on `Labels.SaveLabels`).
- JSON reading and writing, the pandas printout, `print` and `verbose` logging.
- `mmbeliefs_aggregate_submissions` (clock and file I/O) and `mmbeliefs_doc_to_visual` (PIL).
- create_hfdataset.py, lmms-eval-files/mmbeliefs_mcq.py and test_image_labels.py: a dataset upload, a static configuration table and a file-system check.
- Text is ASCII. Python's Unicode `lower`, `\s` and punctuation are restricted to their ASCII behaviour, and scores are the naturals 0 and 1, not floats.
- Scraper.ExtensionFor: the priority order is stated as implications. When png is chosen the contract does not restate which of the earlier checks failed.

## Findings

| source | as written | input that shows it | evidently intended | confidence | as-written member | corrected member |
|---|---|---|---|---|---|---|
| standardize_images.py:15-16 | `out_path = in_path.replace(suffix, '_compressed' + suffix)`: an empty suffix (no extension) matches between every character, and a suffix that also occurs earlier in the path is replaced there too | `in_path = "img"` gives `"_compressedi_compressedm_compressedg_compressed"` | insert "_compressed" once, just before the extension: `"img_compressed"` | not executed | Standardize.CompressedPathAsWrittenOfImg | Standardize.CompressedPathKeepsExtension |
| standardize_images.py:71-72 | `check_valid_image_size(image_path)` uses the default 5 MiB, while the warning prints `max_size_mb` | `max_size_mb = 10` and a 6 MiB image `out/a.jpg`: "Image out/a.jpg is > 10MB" is printed | check against `max_size_mb`, the limit the message names | not executed | Standardize.WarningForImageWithinLimit | Standardize.PrepareDataset |
