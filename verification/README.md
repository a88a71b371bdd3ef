# Quote-speak core in Dafny

A verified model of the deterministic core of the quote-speak web app. The app
turns a title and a quote into a captioned card image and a spoken video, then
manages the folder of generated files. The model covers six parts of it:

- **Card layout** (`CardLayout`, `TextWrap`). This is the arithmetic of
  `create_text_image`:
  - colour-template lookup with its fallback;
  - the greedy `wrap_text`;
  - splitting the body at `'\n\n'`, with a `''` marker after each paragraph;
  - the content-height sum and the 600-pixel minimum card height;
  - the drawing cursor that places each line.

  Fonts are `FontMetrics` values: an uninterpreted `width` and `height` per string.
- **Storage lifecycle** (`Storage`). This is `StorageManager`:
  - the listing of top-level files;
  - the age purge;
  - the size purge, oldest first, which measures the folder again before each deletion;
  - the combined smart cleanup;
  - the storage statistics.

  The folder is a sequence of entries. Each entry is a regular file or a
  subdirectory whose bytes count towards the folder size but which is never
  deleted.
- **Utilities** (`Utils`, `Chars`, `Sorting`). These are:
  - input validation, whose checks run in a fixed order;
  - the keep-newest-N-plus-age retention pass over generated media;
  - filename sanitising.
- **Usage counters** (`Monitoring`). This is `UsageTracker` with its
  invariant and its guarded divisions.
- **Memory tiers** (`Memory`). These are the encoder settings chosen from the
  available memory, the low-memory profile, and the two memory checks.
- **Voice-provider dispatch** (`Voice`). This covers:
  - the provider registry;
  - availability, which holds exactly when a key is set;
  - the key and client guards that come before any request;
  - the ElevenLabs voice-id table and its fallback;
  - the Google language choice;
  - the voice lists.

The model takes as parameters everything the program reads from its
surroundings:

- the clock (`now`, whole seconds);
- which deletions fail (`undeletable`, a set of names);
- the memory readings;
- whether the OpenAI client can be built;
- how a network exchange ended (`Outcome`).

Sizes are whole bytes rather than MB/GB floats.

Behaviour of the code that a reader of the app's description may not expect, and which the model follows:

- `wrap_text` returns no lines at all for blank text (`TextWrap.WrapTextBlank`); it does not return one empty line.
- Font sizes are fixed at 120 and 60. The size is not searched for a fit.
- A line's width is the sum of `width(word + ' ')` over its words. The joined line is never measured.
- A word wider than the column is put on a line of its own. It is never broken into characters.
- `cleanup_by_size` can stop above its target. It counts subdirectories in the folder size but only ever deletes top-level files (`Storage.SizeCleanupCanEndOverTarget`).
- The early return of `cleanup_by_size` has no `errors` key. The model reports an empty error list there.

## Model

| member | source | states |
|---|---|---|
| CardLayout.LookupTemplate | video_generator.py:87 | a known key yields its own template, any other key the purple-to-blue one, and the result is always a registered template |
| CardLayout.TemplateRegistry | video_generator.py:15-21 | exactly the five named templates exist, all colours are valid RGB triples, and an unknown key falls back to "Purple to Blue" |
| TextWrap.WrapTextBlank | video_generator.py:63-84 | wrapping yields no lines exactly when the text is blank |
| TextWrap.WrapTextKeepsWords | video_generator.py:65-84 | the words of the emitted lines, in order, are exactly `text.split()`, and no line is empty |
| TextWrap.WrapTextFits | video_generator.py:70-82 | every line is charged at most the column width unless it is a single word; an over-wide word stands alone on its line |
| TextWrap.WrapTextIsGreedy | video_generator.py:72-79 | the first word of each line would have pushed the previous line past the column width |
| TextWrap.WrapTextNormalised | video_generator.py:65-82 | wrapping depends only on the word sequence: collapsing whitespace first changes nothing |
| TextWrap.SplitWordsEmptyIffBlank | video_generator.py:65 | a text has no words exactly when it is all whitespace |
| TextWrap.SplitJoinWords | video_generator.py:77 | splitting a space-joined line gives back its words |
| CardLayout.SplitParagraphsRoundTrip | video_generator.py:115 | joining the paragraphs with the separator restores the body text |
| CardLayout.SplitParagraphsHaveNoBreak | video_generator.py:115 | no paragraph contains the `\n\n` separator |
| CardLayout.SplitParagraphsLeftmost | video_generator.py:115 | every paragraph but the last is empty or does not end in a newline, as cutting at the leftmost separator gives |
| CardLayout.SplitParagraphsUnique | video_generator.py:115 | any pieces that join back to the text, hold no separator and are cut leftmost are exactly the split, so the paragraph count is fixed |
| CardLayout.SplitParagraphsExample | video_generator.py:115 | four newlines in a row give an empty paragraph between the two texts |
| CardLayout.BodyLinesMarkerCount | video_generator.py:114-119 | the body line list holds exactly one `''` marker per paragraph, since wrapping never emits one |
| CardLayout.BodyLinesSplitBack | video_generator.py:114-119 | cutting the body lines at the markers gives back each paragraph's wrapped lines in order |
| CardLayout.BodyLinesEndWithMarker | video_generator.py:116-119 | the body line list always ends with the last paragraph's marker |
| CardLayout.DrawTitle | video_generator.py:147-153 | each title line is drawn at x = 160 and at the height of the lines above it, and the cursor ends at the title block height |
| CardLayout.DrawBody | video_generator.py:156-165 | markers are skipped; text lines are drawn in order at x = 160, each at the start plus the body height (height + 20 per text line, 30 per marker) of the lines before it; the cursor ends at the start plus the body height; every drawn line lies between the start and the end |
| CardLayout.TitleHeightPrefix | video_generator.py:106-111 | each title line with its gap lies within the title block height |
| CardLayout.CreateTextImage | video_generator.py:86-165 | the card height is max(content, 600); the image is 1200 by card height + 120; title line i is drawn at (160, 160 + height of the title lines above), so text starts at y = 160; each body text line is drawn at 160 + title height + 80 + the body height of the lines before it; the body cursor ends at margin + content − padding, which is within margin + card height − padding |
| Storage.SnapshotMembers | storage_manager.py:40-64 | the listing holds exactly the folder's top-level regular files |
| Storage.OldFiles | storage_manager.py:69 | a listed file is a candidate exactly when its age is strictly over the limit |
| Storage.DeletePassEffect | storage_manager.py:75-85 | the deletion loop deletes exactly the deletable candidates it reached, records exactly the others as errors, and the folder afterwards lacks exactly the deleted names |
| Storage.DeletePassStops | storage_manager.py:116-128 | with a target, the loop ends within it or with every candidate tried, and before each candidate it reached the folder was still over the target |
| Storage.DeletePassAccounts | storage_manager.py:75-91 | freed bytes plus the remaining folder size equal the original size, and the listing shrinks by one per deletion |
| Storage.CleanupOldFilesEffect | storage_manager.py:66-91 | deleted count plus errors equals the number of old files; the freed bytes are those of the deleted files only; the remaining count is the listing minus the deletions; a file survives exactly when it is not old or its deletion fails |
| Storage.AgeCleanupScenario | test_storage_manager.py:16-22 | files 48, 36, 12, 2 and 0.5 hours old under a 24-hour limit lose exactly the 48- and 36-hour ones |
| Storage.CleanupBySize | storage_manager.py:93-106 | the target defaults to the cap; cleanup is needed exactly when the folder is over the target; otherwise nothing changes and zero is reported |
| Storage.CleanupBySizeOrder | storage_manager.py:108-128 | the files reached are a prefix of the listing sorted oldest first; the purge ends within the target or with every file tried; before each file it reached the folder was over the target |
| Storage.CleanupBySizeAccounts | storage_manager.py:112-137 | each reached file is deleted or reported; the folder afterwards lacks exactly the deleted files; the freed bytes and the listing's shrinkage match the deletions |
| Storage.CleanupBySizeDeletesOldest | storage_manager.py:108-128 | when no deletion fails, everything reached is deleted, and every surviving file is at least as new as every deleted one |
| Storage.SizeCleanupCanEndOverTarget | storage_manager.py:28-48 | a 10-byte subdirectory beside a 5-byte file with an 8-byte target: the file is deleted and the folder still reports 10 bytes |
| Storage.SmartCleanupAccounts | storage_manager.py:139-161 | the age purge runs first and the size purge on what it leaves; the totals are the sums of the two reports; final size plus freed bytes equals the original size |
| Storage.SmartCleanupSparesYoungFiles | storage_manager.py:143-147 | a file under the age limit is removed only when the size purge was needed and reached it |
| Storage.MaxAge | storage_manager.py:177 | the oldest age is at least every listed file's age and is the age of one of them |
| Storage.MinAge | storage_manager.py:178 | the newest age is at most every listed file's age and is the age of one of them |
| Storage.StorageStatsEmpty | storage_manager.py:167-174 | an empty listing gives all-zero statistics without the over-24h and usage keys |
| Storage.CountOver24h | storage_manager.py:187 | the count is the number of files the age purge would pick with a 24-hour limit: 0 exactly when no file is over 24 hours old, the whole listing exactly when every file is |
| Storage.StorageStatsBounds | storage_manager.py:176-189 | newest age ≤ oldest age; the average times the count is the total; the over-24h count is the number of files more than 24 hours old and does not depend on the age limit; usage is 0 when the cap is not positive |
| Sorting.SortByKey | storage_manager.py:110 | the sorted listing is a permutation of the listing |
| Sorting.SortByKeySorted | storage_manager.py:110 | the sorted listing is in nondecreasing key order |
| Chars.StripIsTrimmedInfix | utils.py:7-8 | `strip()` removes exactly a leading and a trailing whitespace run and leaves non-space ends |
| Chars.StripEmptyIffBlank | utils.py:10 | the stripped string is empty exactly when the raw string is blank |
| Chars.NatToStringRoundTrip | utils.py:14 | the decimal rendering of a limit reads back as that number |
| Utils.StripKeepsForbidden | utils.py:7-20 | stripping neither adds nor removes forbidden characters |
| Utils.ValidateInputAcceptsIff | utils.py:5-23 | the form is accepted exactly when both fields are non-blank, within their limits after stripping, and free of `< > " '` |
| Utils.ValidateInputFirstFailure | utils.py:10-21 | each message is returned exactly when its check is the first to fail |
| Utils.MessagesDistinct | utils.py:11-21 | the four messages differ, so a message names the failing check |
| Utils.ValidateInputDefaultLimit | utils.py:13-14 | without configuration a 2000-character text passes and a longer one fails with the message quoting 2000 |
| Utils.ValidateInputDefaultTitleLimit | utils.py:16-17 | without configuration a 100-character title passes and a longer one fails with the message quoting 100 |
| Utils.SliceIndex | utils.py:45 | the slice boundary for `keep_count` follows Python's clamping and negative-index rules |
| Utils.RetainMedia | utils.py:25-30 | a missing directory is left alone, and retention never adds a file |
| Utils.RetainMediaEffect | utils.py:31-60 | a file survives exactly when it is not media, its deletion fails, or it is among the newest `keep_count` with mtime at or after the cutoff |
| Utils.RetainMediaKeepsNewest | utils.py:42-54 | a surviving deletable media file is at least as new as every media file beyond the kept ones |
| Utils.SanitizeFilename | utils.py:72-79 | each unsafe character becomes `_` one for one, others stay, the result has no unsafe character and is at most 100 long |
| Utils.SanitizeFilenameIdempotent | utils.py:72-79 | sanitising twice is sanitising once, and a name is unchanged exactly when it is already safe and at most 100 long |
| Monitoring.TrackRequest | monitoring.py:24-33 | one call adds one request, one error exactly on failure, its time to the total, and one count to a provider only when one is given |
| Monitoring.TrackRequestKeepsValid | monitoring.py:24-33 | errors and provider counts never exceed requests, from the fresh tracker on |
| Monitoring.FailuresBound | monitoring.py:26-33 | a call sequence has no more failures, and no more provider counts, than calls |
| Monitoring.ReplayCounts | monitoring.py:24-33 | after any call sequence the counters have grown by exactly the calls, the failures, the summed times and the given providers |
| Monitoring.GetStatsSpec | monitoring.py:35-42 | a fresh tracker reports zero rate and average; the error rate lies in [0, 1]; the average times the requests is the total time |
| Memory.GetMemorySafeSettings | memory_monitor.py:106-134 | the settings are always one of the three tiers and use 1 or 2 threads |
| Memory.MemorySafeSettingsTiers | memory_monitor.py:108-134 | 480p exactly below 512 MB, 720p exactly from 512 up to 1024 MB, 1080p exactly from 1024 MB |
| Memory.MemorySafeSettingsMonotone | memory_monitor.py:106-134 | more available memory never lowers the resolution, frame rate or bitrates |
| Memory.TierBitrateStrings | memory_monitor.py:112-131 | the tiers' bitrates render as 300k/48k, 500k/64k and 800k/128k |
| Memory.OptimizeForLowMemory | memory_monitor.py:94-104 | the low-memory profile is 720p, single-threaded and cleans temporary files |
| Memory.LowMemoryProfileIsLighter | memory_monitor.py:94-125 | compared with the 720p tier, the profile keeps picture and frame rate but lowers the video bitrate and threads and uses the fastest preset |
| Memory.MemoryLimitMonotone | memory_monitor.py:31-34 | less resident memory never breaks the limit, and a reading equal to the limit breaks it |
| Memory.AvailableMemoryMonotone | memory_monitor.py:83-92 | more available memory never fails the check, exactly the required amount passes, and a failed default check means the 480p tier |
| Voice.KindNamed | voice_providers.py:240-247 | each of the four registered names selects its own provider kind |
| Voice.GetVoiceProviderSpec | voice_providers.py:239-248 | a provider exists exactly for `openai`, `elevenlabs`, `google` and `azure`, and is available exactly when its key is non-empty |
| Voice.NewProvider | voice_providers.py:20-27 | the OpenAI client exists exactly when a key is set and building the client succeeds |
| Voice.NewProviderClientNeedsKey | voice_providers.py:21-27 | a constructed provider never has a client without a key |
| Voice.AzureRegionDefault | voice_providers.py:184-188 | the Azure region is the configured one, or `eastus` when none is set |
| Voice.VoiceId | voice_providers.py:81 | a known voice maps to the id paired with it in the table, an unknown one to rachel's id, and the result is always an id of the table |
| Voice.VoiceIdTableDistinct | voice_providers.py:66-73 | no voice name and no id occurs twice in the table |
| Voice.VoiceIdsInjective | voice_providers.py:66-73 | distinct known voices have distinct ids |
| Voice.LanguageCodeIff | voice_providers.py:137-140 | the language is `zh-CN` exactly when the voice starts with `zh-CN`, and `en-US` otherwise |
| Voice.GenerateSpeech | voice_providers.py:29-45 | a success always comes from a request that was sent and answered |
| Voice.GenerateSpeechGuard | voice_providers.py:29-224 | without a key (or an OpenAI client) nothing is sent and the call fails; otherwise the request carries the key and succeeds exactly on status 200 (for OpenAI, on not raising) |
| Voice.OpenAIAvailableButNoClient | voice_providers.py:21-48 | an OpenAI provider whose client failed to build is reported available, yet every request fails unsent |
| Voice.ElevenLabsCallUsesVoiceId | voice_providers.py:79-83 | ElevenLabs posts to the endpoint of the chosen voice's id, or rachel's for an unknown voice |
| Voice.VoiceListsDistinct | voice_providers.py:50-237 | every provider lists six voices with distinct values |
| Voice.ElevenLabsListMatchesIds | voice_providers.py:66-122 | the ElevenLabs list offers exactly the names of the id table, in the same order |
| Voice.ElevenLabsListKnown | voice_providers.py:81-122 | every voice the ElevenLabs list offers is found in the table, so none falls back to rachel |
| Voice.GoogleListIsEnglish | voice_providers.py:137-182 | every listed Google voice is sent with language `en-US` |

## Left out

- Pixel drawing, the gradient background, `get_font` file loading and `image.save`: these are image I/O. Fonts are passed in as metrics.
- `create_video` and `generate_video`: moviepy/ffmpeg and file orchestration.
- `start_scheduled_cleanup`: threads and the `schedule` library.
- Logging, `print`, `gc.collect`, psutil readings and the memory-limit decorator with its 80% cleanup trigger: these are side effects. Readings are parameters.
- The `time_request` timing decorator: the clock. Generation times are parameters.
- All HTTP and OpenAI calls, the headers, the request bodies, the SSML document and Azure's speed percentage: the network. One `Outcome` stands for how the guarded block ended.
- `GenerateSpeech` does not model `**kwargs` (`speed`, `stability`), which only shape the request body.
- The Flask routes, the configuration loading and the deployment scripts are web and bootstrap glue.
- `Monitoring.GetStatsSpec`: generation times, the error rate and the average are exact reals, and Python's float rounding is not modelled. So the average times the request count equals the total exactly; with doubles it may differ in the last place.
- `Monitoring.TrackRequest`: the running total of generation times is an exact real sum, without float rounding.
- Storage's average size and usage percentage and Memory's readings are exact reals as well. The memory checks only compare readings with whole-MB thresholds.
- Storage sizes are whole bytes and times whole seconds, so the MB/GB float conversions and fractional ages are not modelled. `Storage.IsOld` compares `now - mtime` with `hours * 3600` exactly.
- A `None` value stored under `AZURE_SPEECH_REGION` or a form key is treated like a missing entry. In the source it would reach `strip()` or the URL unchanged.
- A file that disappears between listing and `stat` is not modelled. Listings are snapshots.
- `Sorting.SortByKey`: its stability is not proved. Only sortedness and permutation are stated.
- `Storage.CleanupBySizeDeletesOldest`: the oldest-first survivor property is stated only when no deletion fails.
