# dvg-utils, modelled in Dafny

This project models the sequential core of dvg-utils, a Python toolkit for computer-vision
pipelines, and proves properties of that model. The core covers:

- **The pipeline** (`Pipeline`). It chains a frame source with `map`, `filter` and `iter` stages,
  drains the chain with `run` and closes its pipes in reverse order.
- **The frame source** (`CaptureVideoPipe`). It numbers the frames of a video capture and names each
  by its index as six zero-padded digits.
- **The observable registry** (`Observable`). It maps each event to an ordered map from observer to
  callback.
- **Small conversions** (`dvgutils/misc.py`). These are FOURCC decoding, clipping points to an
  image, and `"h:m:s.ms"` time strings.
- **File capture** (`FileVideoCapture`). This is its frame-range normalisation and end-of-range gate.
- **Drawing helpers.** These are the geometry of a text label's background box in `put_text`, and
  the region `rectangle_overlay` writes.
- **The configuration** (`dvgutils/config.py`). This is command-line overrides along dotted paths
  and `${NAME}` environment substitution.
- **The two copies of the centroid tracker.** The tracker is a registry of objects with monotone
  ids. It matches them greedily to the boxes of each frame by nearest centroid, and drops an object
  after too many frames without a match.
- **The line-crossing counter** (`ObjectCounter`).
- **The counting half of the two up/down object counters.**

Each Python module becomes a Dafny module:

- Objects whose fields change become classes.
- Their methods carry `modifies` clauses and loops with invariants.
- Each method is specified by a function of the old state.
- The properties the code promises are lemmas about those functions.

| file | models |
|---|---|
| `wrappers.dfy` | `Option`, `Result` and the Python exceptions raised (`IndexError`, `KeyError`, `ValueError`, `TypeError`, `UnboundLocalError`) |
| `arith.dfy` | uniqueness of Euclidean division, used by the byte and batch proofs |
| `decimal.dfy` | decimal digits: `int(text)` for signed digit strings, `str(n)`, and `f"{n:0Wd}"` zero padding |
| `text.dfy` | `str.split`, `str.join`, `str.count` and `str.replace` on one-character or literal separators |
| `points.dfy` | integer points and clamping |
| `ordered_map.dfy` | insertion-ordered dictionaries (keys in order, plus a map) |
| `pipeline.dfy` | `dvgutils/pipeline/pipeline.py` |
| `pipeline_examples.dfy` | the four pipelines of `tests/test_pipeline.py` and their expected outputs |
| `capture_video_pipe.dfy` | `dvgutils/pipeline/capture_video_pipe.py` |
| `observable.dfy` | `dvgutils/helpers/observable.py` |
| `misc.dfy` | `decode_fourcc`, `clip_points` and `str_to_sec` of `dvgutils/misc.py` |
| `file_video_capture.dfy` | `open` and `read` of `dvgutils/modules/video_capture/file_video_capture.py` |
| `vis.dfy` | `put_text` and `rectangle_overlay` of `dvgutils/vis.py` |
| `config.dfy` | `overwrite_config` and `constructor_env_variables` of `dvgutils/config.py` |
| `centroid_matching.dfy` | centroids, squared distances, `argmin`/`argsort` and the greedy pairing shared by both trackers |
| `centroid_tracker.dfy` | both `CentroidTracker` classes (`examples/modules/object_tracker/` and `examples/modules/object_counter/`) |
| `line_counter.dfy` | `examples/modules/object_counter.py` |
| `up_down_counter.dfy` | the counting half of `detect` in `opencv_object_counter.py` and `dlib_object_counter.py` |

## Model

| member | source | states |
|---|---|---|
| Pipeline.Pipeline.constructor | dvgutils/pipeline/pipeline.py:2-5 | the pipe list holds only the source, and the stream is the source's items |
| Pipeline.Pipeline.Map | dvgutils/pipeline/pipeline.py:10-15 | a missing stage changes nothing; otherwise the stage is appended to the pipes, and the stream becomes the old stream with the stage applied to each item in order; the pipeline itself is returned |
| Pipeline.Pipeline.Filter | dvgutils/pipeline/pipeline.py:17-22 | a missing stage changes nothing; otherwise the stage is appended, and the stream keeps exactly the old items the predicate accepts; the pipeline itself is returned |
| Pipeline.Pipeline.Iter | dvgutils/pipeline/pipeline.py:24-29 | a missing stage changes nothing; otherwise the stage is appended, and the stream becomes the stage's output for the old stream; the pipeline itself is returned |
| Pipeline.Pipeline.Run | dvgutils/pipeline/pipeline.py:31-33 | the items drained are the source's items passed through every registered stage in registration order |
| Pipeline.Pipeline.Close | dvgutils/pipeline/pipeline.py:35-38 | the pipes closed are those in the closing order of the pipe list |
| Pipeline.ClosingOrderExactly | dvgutils/pipeline/pipeline.py:35-38 | close() reaches every pipe that has a `close`, reaches no other pipe, and goes from the last pipe to the first, so each pipe is closed once |
| Pipeline.ClosingOrderSound | dvgutils/pipeline/pipeline.py:36-38 | every pipe that is closed has a `close` |
| Pipeline.ClosingOrderComplete | dvgutils/pipeline/pipeline.py:36-38 | every pipe that has a `close` is closed |
| Pipeline.ClosingOrderDescending | dvgutils/pipeline/pipeline.py:36 | pipes are closed in strictly decreasing registration position |
| Pipeline.ClosingOrderPrefix | dvgutils/pipeline/pipeline.py:36-38 | a pipe added at the end is closed first, and the rest keep their order |
| Pipeline.FlowPush | dvgutils/pipeline/pipeline.py:10-29 | adding a stage to a well-formed chain keeps the chain well formed, and its output is the stage applied to the old output |
| Pipeline.MappedOnceInOrder | dvgutils/pipeline/pipeline.py:12 | a map stage yields one item per input item; item i is the stage's answer after having seen items 0..i-1; a prefix of the output is the output for the same prefix of the input |
| Pipeline.StatefulRunIsMapped | dvgutils/pipeline/pipeline.py:12 | a stage object that keeps state between calls gives the same outputs as a map stage that replays its earlier inputs |
| Pipeline.FilteredConcat | dvgutils/pipeline/pipeline.py:19 | filtering two streams one after the other gives the two filtered streams one after the other |
| Pipeline.FilteredMembers | dvgutils/pipeline/pipeline.py:19 | an item is in the filtered stream exactly when it is in the stream and the predicate accepts it; filtering never lengthens the stream |
| Pipeline.FilteredExtremes | dvgutils/pipeline/pipeline.py:19 | a predicate that accepts every item keeps the whole stream, and one that accepts none leaves it empty |
| PipelineExamples.PrintIdentity | tests/test_pipeline.py:70-81 | the printing stage passes every item through unchanged |
| PipelineExamples.EvenNumbers | tests/test_pipeline.py:21-29 | keeping the multiples of 2 of 0..n-1 leaves the values 0, 2, 4, … up to n-1, in order |
| PipelineExamples.AverageBuffer | tests/test_pipeline.py:32-46 | after items 0..m-1 the averaging stage's buffer holds the last five values, oldest first |
| PipelineExamples.SumFive | tests/test_pipeline.py:42-44 | five consecutive integers from a add up to 5a + 10 |
| PipelineExamples.MovingAverageItem | tests/test_pipeline.py:38-46 | item i gets no average while i < 4, and the mean of i-4..i after that |
| PipelineExamples.MovingAverages | tests/test_pipeline.py:115-130 | over n numbered items, the printed averages are the means of k..k+4 for each k up to n-5 |
| PipelineExamples.BatchedLength | tests/test_pipeline.py:49-67 | batching keeps exactly the items of the whole batches |
| PipelineExamples.BatchedAt | tests/test_pipeline.py:49-67 | item i keeps its data and carries the batch number of batch i / size |
| PipelineExamples.BatchNumbers | tests/test_pipeline.py:132-146 | batches of two over n items print the batch numbers 1, 1, 2, 2, … for the whole batches only |
| PipelineExamples.BatchNumbersTen | tests/test_pipeline.py:132-146 | batches of two over ten items print 1, 1, 2, 2, 3, 3, 4, 4, 5, 5 |
| PipelineExamples.PrintPipelineTest | tests/test_pipeline.py:85-97 | the numbers pipeline prints 0 to 9 |
| PipelineExamples.IsMultipleOfPipelineTest | tests/test_pipeline.py:99-113 | keeping multiples of 2 prints 0, 2, 4, 6, 8 |
| PipelineExamples.MovingAveragePipelineTest | tests/test_pipeline.py:115-130 | a period of five over ten numbers prints six averages, and the k-th has sum 5(k + 2) over 5 items |
| PipelineExamples.BatchPipelineTest | tests/test_pipeline.py:132-146 | batches of two over ten numbers print 1, 1, 2, 2, 3, 3, 4, 4, 5, 5 |
| CaptureVideoPipe.RecordName | dvgutils/pipeline/capture_video_pipe.py:28-32 | the frame name is all digits and reads back as the frame index; it is six characters long below 10^6 and as long as the plain decimal index above that |
| CaptureVideoPipe.FramesBeforeEnd | dvgutils/pipeline/capture_video_pipe.py:25-36 | the frames before the position counted are all present, and the frame at that position is the end of the capture |
| CaptureVideoPipe.YieldedLength | dvgutils/pipeline/capture_video_pipe.py:25-36 | the generator yields one record per frame before the first failed read, and no more |
| CaptureVideoPipe.YieldedAt | dvgutils/pipeline/capture_video_pipe.py:24-34 | record k holds frame k, with index start + k and the name made from that index |
| CaptureVideoPipe.CaptureVideoPipe.constructor | dvgutils/pipeline/capture_video_pipe.py:7-12 | nothing has been read or closed, the pipe is not stopped, and the index starts at 0 |
| CaptureVideoPipe.CaptureVideoPipe.OnStop | dvgutils/pipeline/capture_video_pipe.py:20-21 | the pipe is stopped and nothing else changes |
| CaptureVideoPipe.CaptureVideoPipe.Close | dvgutils/pipeline/capture_video_pipe.py:38-39 | the capture is closed once more and nothing else changes |
| CaptureVideoPipe.CaptureVideoPipe.Iter | dvgutils/pipeline/capture_video_pipe.py:14-24 | a new generator numbers from 0 again and is not finished; the capture keeps its read position, and `stop` and the closes are unchanged |
| CaptureVideoPipe.CaptureVideoPipe.Next | dvgutils/pipeline/capture_video_pipe.py:23-36 | once stopped or finished, it reads nothing and yields nothing; otherwise it reads one frame, and either yields that frame's record and advances the index, or finishes at the end of the capture |
| CaptureVideoPipe.CaptureVideoPipe.Drain | dvgutils/pipeline/capture_video_pipe.py:23-36 | running an unstopped generator to its end yields exactly the records of the unread frames before the end of the capture, numbered from the current index |
| CaptureVideoPipe.YieldedUnfold | dvgutils/pipeline/capture_video_pipe.py:25-36 | the records still to come are the record of the next frame followed by the rest, or nothing at the end of the capture |
| Decimal.DigitsValue | dvgutils/pipeline/capture_video_pipe.py:30 | `str(n)` is a run of digits with no leading zero (unless n is 0) that reads back as n |
| Decimal.ZeroPaddedProperties | dvgutils/pipeline/capture_video_pipe.py:30 | `f"{n:0Wd}"` is a run of digits that reads back as n; its length is W, or the length of `str(n)` when that is longer |
| Decimal.ParseInt | dvgutils/misc.py:60 | `int(t)` succeeds exactly on digits with an optional sign; it gives the digits' value, negated after a "-", and raises ValueError otherwise |
| Decimal.ParseIntDigits | dvgutils/misc.py:60 | `int(str(n)) == n` |
| Decimal.ParseIntSigned | dvgutils/misc.py:60 | `int("-" + str(n)) == -n` and `int("+" + str(n)) == n` |
| Observable.Observable.constructor | dvgutils/helpers/observable.py:3-4 | no event has observers |
| Observable.Observable.Register | dvgutils/helpers/observable.py:6-11 | the event's observers (none if the event is new) gain or replace the observer's callback; other events are unchanged; the observable itself is returned |
| Observable.Observable.Unregister | dvgutils/helpers/observable.py:13-14 | KeyError exactly when the event or the observer is not registered, and then nothing changes; otherwise only that observer is removed from that event |
| Observable.Observable.Notify | dvgutils/helpers/observable.py:16-19 | the callbacks called are those of the event's observers in registration order, and none for an unknown event |
| OrderedMaps.PutProperties | dvgutils/helpers/observable.py:9 | after `d[k] = v` the key maps to v, other keys keep their values, a present key keeps its place, and a new key goes last |
| OrderedMaps.PutPresent | dvgutils/helpers/observable.py:9 | re-registering an observer replaces its callback in place |
| OrderedMaps.PutAbsent | dvgutils/helpers/observable.py:9 | a new observer's callback is called after all the others |
| OrderedMaps.RemoveProperties | dvgutils/helpers/observable.py:14 | `del d[k]` removes that key only and keeps the order of the rest |
| Misc.DecodeFourccLow32 | dvgutils/misc.py:6-8 | only the low 32 bits of the code matter |
| Misc.EncodeFourcc | dvgutils/modules/video_capture/camera_video_capture.py:42 | the code packed from four characters is a signed 32-bit integer |
| Misc.EncodeFourccLow32 | dvgutils/modules/video_capture/camera_video_capture.py:42 | modulo 2^32 the code is the four low character bytes, first character lowest |
| Misc.DecodePacked | dvgutils/misc.py:8 | decoding four packed bytes gives them back in order |
| Misc.DecodeEncodeFourcc | dvgutils/misc.py:8 | decoding an encoded FOURCC gives each character's low byte |
| Misc.DecodeEncodeFourccBytes | dvgutils/misc.py:8 | decoding an encoded FOURCC of byte-sized characters gives the same four characters back |
| Misc.ClipPoints | dvgutils/misc.py:35-49 | an empty point list raises IndexError; otherwise each point is kept in place and clamped into [0, width] × [0, height] |
| Misc.ClipPointsInside | dvgutils/misc.py:45-49 | clipped points lie in the image, and points already inside are unchanged |
| Misc.ClipPointsIdempotent | dvgutils/misc.py:45-49 | clipping twice gives the same as clipping once |
| Points.Clamp | dvgutils/misc.py:46-47 | with lo ≤ hi the result lies in [lo, hi] and is the value when it is in range; `np.clip` returns hi whenever the value is above hi or lo > hi |
| Misc.StrToMs | dvgutils/misc.py:52-62 | the only error `str_to_sec` raises on a string is ValueError |
| Misc.StrToMsSeconds | dvgutils/misc.py:59-62 | a single field "s" of digits is s seconds |
| Misc.StrToMsHms | dvgutils/misc.py:59-62 | "h:m:s" of digits is 3600·h + 60·m + s seconds |
| Misc.StrToMsMs | dvgutils/misc.py:59-62 | "m:s" of digits is 60·m + s seconds |
| Misc.StrToMsHmsMs | dvgutils/misc.py:59-62 | "h:m:s.f" of digits is 3600·h + 60·m + s seconds plus f milliseconds |
| Misc.StrToMsSignedMs | dvgutils/misc.py:59-62 | "m:s" whose fields `int()` reads as vm and vs, signs included, is 60·vm + vs seconds |
| Misc.StrToMsExampleSigned | dvgutils/misc.py:60 | "-1:30" is -30 s: the sign applies to the minutes field alone |
| Misc.StrToMsBadField | dvgutils/misc.py:60 | a seconds field that `int()` rejects raises ValueError |
| Misc.StrToMsFraction | dvgutils/misc.py:61 | a ".f" suffix adds the integer value of f in milliseconds |
| Misc.StrToMsExtraFields | dvgutils/misc.py:60 | colon fields before the last three are ignored |
| Misc.ColonSecondsSuffix | dvgutils/misc.py:60 | only the last three colon fields are weighed |
| Misc.StrToMsExampleSecond | tests/test_misc.py:26 | "0:1" is 1 s |
| Misc.StrToMsExampleMinute | tests/test_misc.py:27 | "1:0" is 60 s |
| Misc.StrToMsExampleHourOnly | tests/test_misc.py:28 | "1:0:0" is 3600 s |
| Misc.StrToMsExampleOnes | tests/test_misc.py:29 | "1:1:1" is 3661 s |
| Misc.StrToMsExampleMinutesSeconds | tests/test_misc.py:30 | "02:23" is 143 s |
| Misc.StrToMsExampleLeadingZeroHour | tests/test_misc.py:31 | "00:02:23" is 143 s |
| Misc.StrToMsExampleMixed | tests/test_misc.py:32 | "01:02:23" is 3743 s |
| Misc.StrToMsExampleHundredMs | tests/test_misc.py:33 | "1:0:0.100" is 3600.1 s |
| Misc.StrToMsExampleNineteenMs | tests/test_misc.py:34 | "1:0:0.19" is 3600.019 s |
| Misc.StrToMsExampleThreeDigitMs | tests/test_misc.py:35 | "1:0:0.765" is 3600.765 s |
| Text.JoinSplit | dvgutils/config.py:72-73 | no part of `s.split(c)` contains c, and joining the parts with c gives s back |
| Text.SplitJoin | dvgutils/config.py:72-73 | splitting parts free of c after joining them with c gives the parts back |
| Text.SplitCount | dvgutils/config.py:72 | `s.split(c)` has one part more than s has occurrences of c |
| Text.SplitConcat | dvgutils/misc.py:59-60 | splitting a + c + b gives the parts of a followed by the parts of b |
| Text.SplitNoSeparator | dvgutils/misc.py:59 | a string without the separator splits into itself alone |
| Text.ReplaceAbsent | dvgutils/config.py:53-55 | replacing a pattern that cannot start anywhere in s leaves s unchanged |
| Text.ReplacePrefix | dvgutils/config.py:53-55 | a prefix in which the pattern cannot start is kept as it is |
| FileVideoCapture.TimeFrame | dvgutils/modules/video_capture/file_video_capture.py:61 | a time setting converts to a frame exactly when `str_to_sec` reads it, and otherwise raises ValueError |
| FileVideoCapture.NormalizedFails | dvgutils/modules/video_capture/file_video_capture.py:56-74 | normalising fails exactly when the start or the end is a string that is not a time, and then with ValueError |
| FileVideoCapture.NormalizedMalformedStart | dvgutils/modules/video_capture/file_video_capture.py:60-61 | a start of "1:x" makes `open` raise ValueError |
| FileVideoCapture.NormalizedRange | dvgutils/modules/video_capture/file_video_capture.py:56-74 | once the length is known and the settings convert, the start ends up in [1, count) and the end in (1, count] (or exactly 1 when there is only one frame). A given frame is kept exactly when it is in range, and is otherwise reset to 1 (start) or to the frame count (end) |
| FileVideoCapture.NormalizedIdempotent | dvgutils/modules/video_capture/file_video_capture.py:67-74 | normalising a range that is already normalised changes nothing |
| FileVideoCapture.NormalizedUnordered | dvgutils/modules/video_capture/file_video_capture.py:67-74 | a start after the end is not corrected: 5..3 over 10 frames stays 5..3 |
| FileVideoCapture.FileVideoCapture.constructor | dvgutils/modules/video_capture/file_video_capture.py:20-33 | it keeps the range and the transform as given, with no length and no seek yet |
| FileVideoCapture.FileVideoCapture.Open | dvgutils/modules/video_capture/file_video_capture.py:35-84 | a capture that cannot be opened raises IOError and changes nothing. Otherwise the length is recorded. With a positive length the range is normalised and the capture seeks to the frame before the start, unless a time setting is not a time: then `open` raises ValueError, with no seek, the end as given, and the start converted only when it was not the failing setting. With no positive length the range is left alone |
| FileVideoCapture.FileVideoCapture.FillStart | dvgutils/modules/video_capture/file_video_capture.py:58-61 | an absent start becomes 1 and a time its frame; a start that is not a time raises ValueError and is left as it was |
| FileVideoCapture.FileVideoCapture.FillEnd | dvgutils/modules/video_capture/file_video_capture.py:62-65 | an absent end becomes the frame count and a time its frame; an end that is not a time raises ValueError and is left as it was |
| FileVideoCapture.FileVideoCapture.CheckRange | dvgutils/modules/video_capture/file_video_capture.py:66-77 | out-of-range frames are reset, to 1 or to the frame count, and the capture seeks to the frame before the start |
| FileVideoCapture.FileVideoCapture.Read | dvgutils/modules/video_capture/file_video_capture.py:86-99 | a frame is returned (transformed when a transform is set) exactly when it was grabbed, and either the length is unknown or the position is within the end frame. When a frame was grabbed, a known length with a missing or textual end frame raises TypeError |
| Vis.TextBox | dvgutils/vis.py:131-150 | an `org_pos` other than tl, tr, bl and br leaves the box unassigned (UnboundLocalError) |
| Vis.TextBoxGeometry | dvgutils/vis.py:131-150 | the box is the text size plus padding on each side and the baseline below; the text starts one padding inside the box; the corner named by `org_pos` is at `org`; with non-negative sizes the corners are ordered |
| Vis.RectangleOverlay | dvgutils/vis.py:93-108 | the pixels inside the rectangle, clipped to the image, are blended, and every other pixel is unchanged |
| Vis.PutText | dvgutils/vis.py:111-165 | it returns the background box corners, or the UnboundLocalError; the image changes only by blending that box when a background colour is given |
| Config.SetPathSucceeds | dvgutils/config.py:76-84 | setting a dotted path fails exactly when the walk meets a non-mapping value, and the failure is a TypeError |
| Config.SetPathGet | dvgutils/config.py:76-84 | after setting the path, reading it gives the value set |
| Config.SetPathOthers | dvgutils/config.py:76-84 | every path that leaves the set path before its end reads as before |
| Config.SetPathPrefixes | dvgutils/config.py:77-82 | every prefix of the path is a mapping afterwards; its keys are the old ones plus the next key, and missing levels are created empty |
| Config.SetTopLevel | dvgutils/config.py:84 | a one-key path sets that key of the top mapping and nothing else, and fails on a non-mapping |
| Config.ParseOverrideShape | dvgutils/config.py:72-73 | an override parses exactly when it has one "=". The parts are a non-empty list of keys free of "." and "=" and a value free of "=", and they join back into the override. Anything else is a ValueError |
| Config.OverwriteConfig | dvgutils/config.py:70-84 | the loop applies the overrides one at a time, in order, and stops at the first error |
| Config.OverriddenStops | dvgutils/config.py:71-84 | after a failed override the later ones have no effect |
| Config.LastOverrideWins | dvgutils/config.py:71-84 | after a successful run the path of the last override holds its parsed value |
| Config.LaterOverrideWins | dvgutils/config.py:71-84 | of two overrides of the same path the second one wins |
| Config.WordRun | dvgutils/config.py:33 | it counts the longest run of word characters at the front |
| Config.ConstructorEnvVariables | dvgutils/config.py:40-57 | the loop's result is the substitution of each name `findall` returns, in turn, in the text as it stands; SubstitutedTemplate states what that substitution yields |
| Config.SubstitutedTemplate | dvgutils/config.py:33-57 | for "$"-free text around any number of `${NAME}` placeholders, repeated names included, each placeholder becomes the variable's value, or NAME when it is unset, and the text around them is kept, provided the values contain no "$" |
| Config.FindAllTemplate | dvgutils/config.py:33-49 | `findall` over "$"-free text and placeholders returns the names in order, with repeats |
| Config.PlaceholderPrefix | dvgutils/config.py:53-55 | the placeholder of one name never matches at the placeholder of a different name |
| Config.ReplaceStep | dvgutils/config.py:53-55 | one `replace` turns every placeholder of its name into the value and leaves the rest of the text alone |
| Config.ReplacedAllPartly | dvgutils/config.py:52-55 | after the loop's turns for some names, exactly the placeholders of those names are replaced and the others still stand |
| Config.SubstitutedTwo | dvgutils/config.py:48-57 | two placeholders around "$"-free text are both replaced |
| Config.SubstitutedDocumented | dvgutils/config.py:20 | the documented `'${AWESOME_ENV_VAR}/var/${A_SECOND_AWESOME_VAR}'` becomes the first value, "/var/", then the second value |
| Config.SubstitutedLogPath | dvgutils/config.py:19 | the documented `'/var/${LOG_PATH}'` becomes "/var/" followed by the value of LOG_PATH |
| Config.SubstitutedChained | dvgutils/config.py:52-55 | with A set to "${B}" and B to "x", "${A}${B}" becomes "xx": a value that brings in a placeholder is replaced again |
| Config.SubstitutedReplacedAgain | dvgutils/config.py:52-55 | in general, when A's value is B's placeholder, "${A}${B}" ends as B's value twice |
| Config.FindAllNoDollar | dvgutils/config.py:49 | text without "$" has no placeholder |
| Config.NoPlaceholderUnchanged | dvgutils/config.py:50-57 | a value without "$" is returned as it is |
| Config.DollarWithoutBraceKept | dvgutils/config.py:49-57 | a "$" not followed by "{", amid "$"-free text (as in `$HOME/bin`), is no placeholder, and the value is returned as it is |
| Config.FindAllPrefix | dvgutils/config.py:49 | text without "$" in front adds no placeholder |
| Config.FindAllPlaceholder | dvgutils/config.py:49 | a leading `${NAME}` is found first |
| Config.WordRunWord | dvgutils/config.py:33 | the word run of NAME followed by "}" is NAME |
| Config.FindAllOne | dvgutils/config.py:49 | a value with one placeholder yields just its name |
| Config.ReplaceOne | dvgutils/config.py:53-55 | replacing the only `${NAME}` swaps it for the replacement and keeps the text around it |
| Config.SubstitutedOne | dvgutils/config.py:48-57 | a value with one placeholder gets its environment value, or NAME when it is unset, with the text around it unchanged |
| CentroidMatching.HalfTruncProperties | examples/modules/object_tracker/centroid_tracker.py:60-61 | `int(a / 2.0)` truncates toward zero: it loses at most one, on the side of zero, and is odd-symmetric |
| CentroidMatching.TooFarIsDistance | examples/modules/object_tracker/centroid_tracker.py:106 | comparing the squared distance with the squared maximum agrees with comparing the Euclidean distance with the maximum |
| CentroidMatching.ArgMin | examples/modules/object_tracker/centroid_tracker.py:91 | the index of the first smallest entry of a row |
| CentroidMatching.ArgSortUpTo | examples/modules/object_tracker/centroid_tracker.py:87 | the row order lists exactly the rows 0..n-1 |
| CentroidMatching.ArgSortProperties | examples/modules/object_tracker/centroid_tracker.py:87 | the row order lists no row twice and is ordered by row minimum, ties by row index |
| CentroidMatching.CandidatesOrdered | examples/modules/object_tracker/centroid_tracker.py:87-99 | each candidate pair is a row with its nearest column; no row comes twice; the pairs come in non-decreasing distance |
| CentroidMatching.CandidatesCover | examples/modules/object_tracker/centroid_tracker.py:87-99 | every row comes with its nearest column |
| CentroidMatching.GreedySound | examples/modules/object_tracker/centroid_tracker.py:99-118 | every accepted pair is a candidate, inside the matrix, and within the maximum distance |
| CentroidMatching.GreedyOneToOne | examples/modules/object_tracker/centroid_tracker.py:99-118 | no row and no column is accepted twice |
| CentroidMatching.GreedyMaximal | examples/modules/object_tracker/centroid_tracker.py:99-118 | a rejected candidate shares its row or its column with an accepted pair, or is too far |
| CentroidMatching.MatchingRules | examples/modules/object_tracker/centroid_tracker.py:84-118 | the matching is one to one and pairs each row only with its nearest column within the maximum. An unmatched row's nearest column is taken, or is too far |
| CentroidMatching.UnusedProperties | examples/modules/object_tracker/centroid_tracker.py:121-122 | the unused indices are exactly those below n not used, in increasing order |
| CentroidTracker.Initial | examples/modules/object_tracker/centroid_tracker.py:7-14 | a new tracker has no objects, next id 0, and satisfies the invariant |
| CentroidTracker.RegisteredValid | examples/modules/object_tracker/centroid_tracker.py:24-30 | registering keeps the invariant (same keys in the three dictionaries, ids increasing and below the next id) and uses an id that was free |
| CentroidTracker.RegisteredEntries | examples/modules/object_tracker/centroid_tracker.py:24-30 | the next id gets the centroid, the box size and a zero counter; the next id grows by one; no other entry changes |
| CentroidTracker.DeregisteredValid | examples/modules/object_tracker/centroid_tracker.py:32-36 | deregistering keeps the invariant |
| CentroidTracker.DeregisteredEntries | examples/modules/object_tracker/centroid_tracker.py:32-36 | the id has no entry afterwards and no other entry changes |
| CentroidTracker.MatchedValid | examples/modules/object_tracker/centroid_tracker.py:111-114 | updating a tracked object keeps the invariant and the ids |
| CentroidTracker.MatchedEntries | examples/modules/object_tracker/centroid_tracker.py:111-114 | the object takes the new centroid and size with a zero counter, and no other entry changes |
| CentroidTracker.AgedValid | examples/modules/object_tracker/centroid_tracker.py:43-48 | ageing keeps the invariant |
| CentroidTracker.AgedEntries | examples/modules/object_tracker/centroid_tracker.py:43-48 | the object's counter grows by one, and the object is dropped once the counter passes the maximum; no other entry changes |
| CentroidTracker.AgedAllEntries | examples/modules/object_tracker/centroid_tracker.py:42-48 | ageing a list of distinct ids ages each of them once and leaves the rest alone |
| CentroidTracker.RegisteredAllEntries | examples/modules/object_tracker/centroid_tracker.py:70-71 | registering inputs in turn gives them consecutive new ids in input order, and no other entry changes |
| CentroidTracker.MatchedAllEntries | examples/modules/object_tracker/centroid_tracker.py:99-118 | after applying a one-to-one matching, each matched object holds its input, and every other object is unchanged |
| CentroidTracker.StaleIdsProperties | examples/modules/object_tracker/centroid_tracker.py:121-131 | the stale ids are exactly the tracked ids that were not matched, each once |
| CentroidTracker.NearestInput | examples/modules/object_tracker/centroid_tracker.py:82-106 | every accepted pair joins an object to an input at least as near as any other input, within the maximum distance |
| CentroidTracker.UpdatedIsStep | examples/modules/object_tracker/centroid_tracker.py:76-142 | with objects and boxes present, `update` applies the greedy matching, a valid one-to-one set of pairs, and then ages or registers the rest |
| CentroidTracker.UpdatedValid | examples/modules/object_tracker/centroid_tracker.py:38-145 | `update` keeps the invariant and never lowers the next id, so ids are never reused |
| CentroidTracker.UpdatedNoBoxes | examples/modules/object_tracker/centroid_tracker.py:40-51 | a frame without boxes ages every object and registers none |
| CentroidTracker.UpdatedFirstFrame | examples/modules/object_tracker/centroid_tracker.py:69-71 | with no objects, every box is registered in order with a new id and nothing else is tracked |
| CentroidTracker.UpdatedMatched | examples/modules/object_tracker/centroid_tracker.py:99-114 | each matched object takes the centroid and payload of its box, with a zero counter |
| CentroidTracker.UpdatedUnmatchedAged | examples/modules/object_tracker/centroid_tracker.py:126-136 | with at least as many objects as boxes, no id is created and every unmatched object ages |
| CentroidTracker.UpdatedUnmatchedNew | examples/modules/object_tracker/centroid_tracker.py:138-142 | with more boxes than objects, the unused boxes get new ids in increasing box order and unmatched objects are not aged |
| CentroidTracker.UpdatedCountersWithin | examples/modules/object_tracker/centroid_tracker.py:38-145 | with a non-negative maximum, no tracked object's counter ever exceeds it |
| CentroidTracker.CentroidTracker.constructor | examples/modules/object_tracker/centroid_tracker.py:7-22 | the tracker starts empty with the given limits |
| CentroidTracker.CentroidTracker.Register | examples/modules/object_tracker/centroid_tracker.py:24-30 | the fields change as registering the centroid and size does |
| CentroidTracker.CentroidTracker.Deregister | examples/modules/object_tracker/centroid_tracker.py:32-36 | a tracked id is removed; an untracked id raises KeyError and changes nothing |
| CentroidTracker.CentroidTracker.AgeOne | examples/modules/object_tracker/centroid_tracker.py:43-48 | one object is aged, and dropped past the maximum |
| CentroidTracker.CentroidTracker.AgeEach | examples/modules/object_tracker/centroid_tracker.py:42-48 | the loop ages each listed id once, in order |
| CentroidTracker.CentroidTracker.RegisterEach | examples/modules/object_tracker/centroid_tracker.py:70-71 | the loop registers each input in order |
| CentroidTracker.CentroidTracker.Inputs | examples/modules/object_tracker/centroid_tracker.py:54-66 | each box gives its truncated centroid and its payload (the box size, or nothing in the counter's copy), in box order |
| CentroidTracker.CentroidTracker.MatchOne | examples/modules/object_tracker/centroid_tracker.py:111-114 | one object takes a new centroid and size with a zero counter |
| CentroidTracker.CentroidTracker.Consider | examples/modules/object_tracker/centroid_tracker.py:99-118 | a candidate is skipped when its row or column is used or it is too far, and is otherwise applied and recorded |
| CentroidTracker.CentroidTracker.MatchEach | examples/modules/object_tracker/centroid_tracker.py:99-118 | the loop applies exactly the greedy matching of the candidates, and the used rows and columns are that matching's |
| CentroidTracker.CentroidTracker.Track | examples/modules/object_tracker/centroid_tracker.py:76-142 | matching, then ageing or registering, gives the step of the greedy matching |
| CentroidTracker.CentroidTracker.Update | examples/modules/object_tracker/centroid_tracker.py:38-145 | the new state is the specified update of the old one, and the invariant is kept. The same model covers the counter's copy, examples/modules/object_counter/centroid_tracker.py:40-164 |
| LineCounter.BBox | examples/modules/object_counter.py:15-16 | the box has non-negative sides and its corners are the line's endpoints |
| LineCounter.FlatLineContainsNothing | examples/modules/object_counter.py:51-53 | containment is strict, so a horizontal or vertical line's box contains no centroid, and a box that contains one has sides of at least 2 |
| LineCounter.CrossSides | examples/modules/object_counter.py:28-31 | the line's endpoints have cross product 0; moving a point along the line keeps its side; swapping the endpoints flips the side |
| LineCounter.VisitBasics | examples/modules/object_counter.py:19-48 | an object without centroids raises IndexError. Otherwise the object is marked, and it is left as initialised outside the box. The totals never fall and grow by at most one |
| LineCounter.VisitFirstSighting | examples/modules/object_counter.py:34-40 | the first visit inside the box records the side and counts nothing |
| LineCounter.VisitLaterSighting | examples/modules/object_counter.py:42-48 | a later visit inside the box counts one crossing into or out of the zone when the side changed, and records the new side |
| LineCounter.VisitIdempotent | examples/modules/object_counter.py:19-48 | visiting again without a new centroid changes neither the object nor the totals |
| LineCounter.CountAllBasics | examples/modules/object_counter.py:18-49 | counting keeps every object's centroids. It fails with IndexError exactly when some object has none. The totals never fall and grow by at most one per object |
| LineCounter.CountAllMarked | examples/modules/object_counter.py:19-22 | after a successful count every object is marked |
| LineCounter.CountAllIdempotent | examples/modules/object_counter.py:18-49 | counting again without new centroids changes no object and no total |
| LineCounter.CountAllStopped | examples/modules/object_counter.py:18-49 | once an object raises, the objects after it are untouched and the totals stay as they were |
| LineCounter.ObjectCounter.constructor | examples/modules/object_counter.py:5-16 | both totals start at 0, and the box is the line's |
| LineCounter.ObjectCounter.Count | examples/modules/object_counter.py:18-49 | the objects in the array and the totals are those of the specified count; it returns the totals and the line, or the IndexError |
| LineCounter.ObjectCounter.VisitAt | examples/modules/object_counter.py:19-48 | one object of the array is visited in place, and the totals move with it |
| UpDownCounter.DirectionSign | examples/modules/object_counter/opencv_object_counter.py:116-117 | the integer comparison that stands for `centroid[1] - np.mean(y)` has the sign of that real difference, both ways |
| UpDownCounter.ObserveRules | examples/modules/object_counter/opencv_object_counter.py:103-139 | a new id gets a trackable with one centroid and counts nothing. A known id gains the centroid. An uncounted one counts up exactly when it moves up above the midline, and down exactly when it moves down below it. A counted one counts nothing more |
| UpDownCounter.ObserveCounted | examples/modules/object_counter/opencv_object_counter.py:103-139 | each observation raises the totals by exactly the number of trackables it newly marks counted |
| UpDownCounter.ObserveAllKeys | examples/modules/object_counter/opencv_object_counter.py:100-139 | the trackables afterwards are the old ones plus every tracked id; the totals never fall and grow by at most one per id |
| UpDownCounter.ObserveAllCounted | examples/modules/object_counter/opencv_object_counter.py:100-139 | over a frame the totals rise by exactly the number of newly counted trackables |
| UpDownCounter.ObserveAllFiled | examples/modules/object_counter/opencv_object_counter.py:100-139 | every trackable stays filed under its own id with at least one centroid |
| UpDownCounter.CountingInitial | examples/modules/object_counter/opencv_object_counter.py:11-42 | the initial state satisfies the counting invariant |
| UpDownCounter.ObserveAllCounting | examples/modules/object_counter/opencv_object_counter.py:100-139 | a frame keeps the invariant: up plus down equals the number of counted trackables, each filed under its own id, all ids handed out by the tracker |
| UpDownCounter.UpDownCounter.constructor | examples/modules/object_counter/opencv_object_counter.py:11-42 | there is no frame size yet, the totals are zero, there are no trackables, and the tracker is empty |
| UpDownCounter.UpDownCounter.Detect | examples/modules/object_counter/opencv_object_counter.py:44-143 | the frame size is set on the first frame only; the tracker takes the specified update; the trackables and totals are the frame's observations in id order; it returns the tracked centroids and the totals and counts one more frame; the invariant is kept |
| UpDownCounter.UpDownCounter.ObserveEach | examples/modules/object_counter/opencv_object_counter.py:97-139 | the loop observes each tracked id in order and returns the coordinates of those ids |
| UpDownCounter.UpDownCounter.ObserveOne | examples/modules/object_counter/opencv_object_counter.py:103-139 | one observation updates that id's trackable and the totals, and nothing else |

The counting half of `detect` in examples/modules/object_counter/dlib_object_counter.py:31-135 is
the same code as in the OpenCV counter, so `UpDownCounter` models both. The object counter's copy
of the centroid tracker (examples/modules/object_counter/centroid_tracker.py) is the tracker above,
with nothing kept per box: `CentroidTracker<()>`.

## Left out

- Pipeline.Pipeline.Map: `if pipe:` skips any falsy stage, including an object whose `__bool__` is false or whose `__len__()` is 0. The model's stage is an Option and skips only a missing one (None); the same holds for Pipeline.Pipeline.Filter.
- Threads: the `*Threaded` capture classes, with their producer thread, queue, polling and `join`, are concurrency.
- Foreign libraries are not modelled. These are the OpenCV and dlib trackers and detectors, the tracker creation and `update` calls in the counters, `cv2.putText`, `cv2.getTextSize` and window and file output. Their results become parameters: the boxes handed to `Detect`, the frame size as `frameH`/`frameW`, the text size and baseline in `PutText`, and whether a capture opened, its frame count, what it grabbed and its position in `Open` and `Read`.
- Vis.RectangleOverlay: the `cv2.addWeighted` blend is a pixel function passed in, so only which pixels change, and how each is computed from its old value, is stated.
- Floating point: `remap`, the metrics and timing helpers, and the float step of the time-to-frame conversion `int(str_to_sec(t) * fps)` are left out. That step, from milliseconds to a frame, is the `msToFrame` parameter of FileVideoCapture; the reading of the time string, with its ValueError, is Misc.StrToMs.
- Misc.DecodeFourcc: `decode_fourcc` first applies `int()` to the float that `cap.get` returns, truncating it toward zero; the model takes the code as an integer already.
- Misc.StrToMs: `str_to_sec` returns float seconds; the model returns integer milliseconds, which is exact where the float is not.
- CentroidMatching.Dist2: `cdist` gives Euclidean float distances, the model squared integer ones. TooFarIsDistance shows the comparison with the maximum distance is the same.
- UpDownCounter.DirectionSign: `centroid[1] - np.mean(y)` is a float; the model compares `y · n` with the integer sum, and DirectionSign proves that this has the sign of the real difference.
- Integer width: numpy `int` arrays (centroids, clipped points) wrap at 64 bits; the model uses unbounded integers.
- Decimal.ParseInt: Python `int()` also accepts surrounding whitespace, `_` between digits and non-ASCII digits; the model accepts an optional sign and ASCII digits only.
- Config.SubstitutedTemplate: it requires that the variables' values contain no "$". The loop replaces in the text as it stands, so a value holding `${B}` is replaced again when B's turn comes (SubstitutedChained shows this). The general result for such values is not stated.
- Config.IsWordChar: `\w` is Unicode-aware in Python; the model takes ASCII letters, digits and `_`.
- YAML: loading the file and `yaml.safe_load` of an override's value are left out. The parser is a function parameter, and a configuration is a tree of mappings and leaves.
- Config value tree: YAML anchors and aliases can make two paths share one node, so an in-place `set_path` through one path shows through the other. A tree value shares nothing, so this is not modelled.
- Config.SetPath: a string leaf on the path would be indexed by a string key in Python, and an integer leaf would not be indexable; both raise TypeError, which is all the model keeps of them.
- CentroidMatching.ArgSort: ties between equal row minimums are broken by row index (a stable sort). numpy's default `argsort` does not promise an order for ties.
- CentroidMatching.Unused: the unused rows and columns are visited in increasing order, which is the model's own fixed order. CPython iterates `set(range(n)).difference(used)` in hash-slot order, and when it builds a fresh table that order is not increasing. For example, with 7 objects all matched among 9 boxes the unused columns {7, 8} sit in an 8-slot table where 8 is in slot 0, so box 8 is registered first.
- CentroidTracker.UpdatedUnmatchedNew: new ids go to the unused boxes in increasing box order (see the line above); CPython may hand them out in another order, as in the {7, 8} example, where box 8 gets the lower id.
- The OrderedDicts of the tracker: their three key orders always agree in the source, so the model keeps one id sequence shared by three maps.
- CentroidTracker.CentroidTracker.Deregister: it requires that a tracked id is in all three dictionaries, as the tracker's invariant guarantees; an id in only some of them is not modelled.
- Notify only returns the callbacks in the order they would be called; what the callbacks do is not modelled.
- Streams: pipelines are lazy generators in the source. The model evaluates them on finite sequences, so interleaving across stages is not modelled. `Pipeline.__iter__` (a plain delegation) and `CaptureVideoPipe.__len__` (the capture's length) are not modelled either.
- Pipeline.Pipeline.Run: a second call yields the same items again in the model. In the source the stream is a chain of single-use `map` and `filter` iterators, so a second `run()` yields nothing.
- CaptureVideoPipe: the model holds one generator at a time. `Iter` starts a new one, and a generator that is dropped is not kept alongside it.
- CaptureVideoPipe.CaptureVideoPipe.Drain: it requires that the pipe is neither stopped nor finished. What a stop in the middle of a run does is stated by Next alone.
- CaptureVideoPipe registers itself on a global observable in `__init__`; that global is not part of this model.
- Logging in every module is left out.
- The counters' dictionaries of tracked objects may carry other keys; only `centroids`, `counted` and `is_in` are modelled.
- The `VideoCapture` factory, `list_files`, `CaptureImagePipe`, the object trackers' centroid histories and the example scripts are not part of this model.
