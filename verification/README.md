# Electricity-bill and OCR Lambda handlers, modelled in Dafny

This project models the sequential core of two AWS Lambda handlers.

- **Bedrock analysis handler** (`bedrock_lambda/app.py`). It reads a bill's text from S3 and extracts eight billing terms with regular expressions. It then asks a Bedrock model to analyse the text. The model call is made at most five times, with exponential backoff while the call is throttled. The terms and the model's reply are written back to S3 under `<stem>_result.json`.
- **Textract handler** (`textract_lambda/app.py`). It accepts only `.jpg` uploads, in any letter case. It runs text detection on the image and keeps the text of the `LINE` blocks. It writes those lines, joined with newlines, to `output/<stem>.txt`.

The services are scripted: the outcome of every S3 read and write, every model call and the detection call is an input. Each handler is a specification function `Run`, which returns the reply and the trace of service calls and sleeps in order. It is also a method `LambdaHandler`, written step by step like the Python code and proved equal to `Run`. The lemmas state the handlers' guarantees about `Run`.

Modules:

- `Paths` (paths.dfy): Python's `str.split` and `str.join` on one separator character, the last `/`-segment, the part before the first `.`, and `Stem`, which is `key.split('/')[-1].split('.')[0]`.
- `LabelMatch` (label_match.dfy): a matcher for regular expressions of the shape `Label\s*(C+)Tail`. `C` is `[^\n]` or `[\d,\.]`, and `Tail` is nothing, a literal, or `\s*` followed by a literal. It comes in two forms:
  - A declarative semantics (`SearchFinds`): the leftmost start position, and at that position the match that Python's backtracking prefers.
  - An executable search (`Search`), proved to agree with that semantics.
- `Terms` (terms.dfy): the eight-pattern table of `extract_terms` and the function itself.
- `S3Events` (s3_events.dfy): the notification event, the reply and the write outcome shared by both handlers.
- `Bedrock` (bedrock.dfy) and `Textract` (textract.dfy): the two handlers.

The result key has the fixed suffix `_result.json`. The `uuid4` import at `bedrock_lambda/app.py:7` is never used. So the result key is a deterministic function of the input key (`Bedrock.OutputKeyOfStem`, `Bedrock.OutputKeyIgnoresDirectory`), and a repeated delivery overwrites the same object. The packaged build copy `.aws-sam/build/Good1BedrockAnalysisFunction/app.py` differs in two places that bear on this model. At line 113 it names the result `processed_result_<stem>_<uuid4 hex>.json`. At line 130 its delay adds a linear term, `2 ** attempt + 0.1 * attempt`, before the same `random.uniform(0, 1)` jitter (lines 131-132). It also differs in the model id, the prompt, the request body and the reply bodies, none of which this model covers. The model follows `bedrock_lambda/app.py`.

## Model

| member | source | states |
|---|---|---|
| `Paths.Split` | bedrock_lambda/app.py:87 | `str.split(sep)` returns at least one part, and no part contains the separator |
| `Paths.JoinOfSplit` | bedrock_lambda/app.py:87 | joining the parts of a split with the separator gives back the original string |
| `Paths.Join` | textract_lambda/app.py:84 | `sep.join(parts)` of at least one part is as long as the parts plus one separator between each pair of neighbours, and it starts with the first part |
| `Paths.SplitOfJoin` | textract_lambda/app.py:77 | splitting a join of at least one separator-free part gives back exactly those parts |
| `Paths.LastSegment` | bedrock_lambda/app.py:87 | `split(sep)[-1]` contains no separator |
| `Paths.FirstSegment` | bedrock_lambda/app.py:87 | `split(sep)[0]` contains no separator |
| `Paths.LastSegmentIsLastFreeSuffix` | bedrock_lambda/app.py:87 | `split(sep)[-1]` is a suffix of the string with no separator in it, and it is either the whole string or preceded by a separator |
| `Paths.FirstSegmentIsFirstFreePrefix` | bedrock_lambda/app.py:87 | `split(sep)[0]` is a prefix of the string with no separator in it, and it is either the whole string or followed by a separator |
| `Paths.LastSegmentUnique` | bedrock_lambda/app.py:87 | the last segment is the only string with that description |
| `Paths.FirstSegmentUnique` | bedrock_lambda/app.py:87 | the first segment is the only string with that description |
| `Paths.Stem` | bedrock_lambda/app.py:87 | the stem of a key contains neither `/` nor `.`, and it is the first `.`-segment of the key's last `/`-segment |
| `Paths.StemOfPath` | textract_lambda/app.py:77 | prefixing a key with a directory does not change its stem, so neither handler's output key depends on the directory |
| `Paths.StemOfStem` | bedrock_lambda/app.py:87 | taking the stem twice gives the same result as taking it once |
| `LabelMatch.SpaceEnd` | bedrock_lambda/app.py:19-26 | the greedy `\s*` run from a position is all whitespace and stops before a non-space character or at the end of the text |
| `LabelMatch.ClassEnd` | bedrock_lambda/app.py:19-26 | the greedy run of a character class from a position is all in the class and stops before a character outside it or at the end of the text |
| `LabelMatch.SpaceEndIsMaximal` | bedrock_lambda/app.py:19-26 | no longer whitespace run starts at that position |
| `LabelMatch.ClassEndIsMaximal` | bedrock_lambda/app.py:19-26 | no longer run of the class starts at that position |
| `LabelMatch.BestAt` | bedrock_lambda/app.py:28 | at a start position, the backtracking matcher returns the match Python's greedy order prefers, and it returns nothing only when no match starts there |
| `LabelMatch.Search` | bedrock_lambda/app.py:28 | `re.search` returns nothing exactly when no position starts a match; otherwise it returns group 1 of the preferred match at the leftmost start, which is non-empty and made only of characters in the class |
| `LabelMatch.SearchFindsGroupInClass` | bedrock_lambda/app.py:21-26 | a captured group is non-empty and every character of it is in the group's class |
| `LabelMatch.SearchFindsUnique` | bedrock_lambda/app.py:28 | the semantics determines group 1 uniquely |
| `LabelMatch.SearchReturnsWhatSemanticsFinds` | bedrock_lambda/app.py:28 | whatever group the semantics finds is what `Search` returns |
| `LabelMatch.NoLabelNoMatch` | bedrock_lambda/app.py:28 | a text that never contains the label has no match |
| `Terms.ExtractTerms` | bedrock_lambda/app.py:17-28 | the result has exactly the eight pattern keys, and each field is that field's own search, with no other field involved; a field is `None` exactly when its pattern matches nowhere, and otherwise it is the captured group of the first match |
| `Terms.EightKeys` | bedrock_lambda/app.py:18-27 | the pattern table `Terms.Patterns` has eight keys, so the result always has eight keys, whatever the text |
| `Terms.PatternCount` | bedrock_lambda/app.py:18-27 | the pattern table `Terms.Patterns` has eight distinct keys |
| `Terms.NumericFieldsAreNumeric` | bedrock_lambda/app.py:21-26 | each of the six numeric fields, when present, is non-empty and made only of ASCII digits, `,` and `.` |
| `Terms.NoLabelsNoTerms` | bedrock_lambda/app.py:28 | a text containing none of the eight labels yields `None` for every field |
| `Terms.EnergyUsedExample` | bedrock_lambda/app.py:21 | a text that begins "Energy Used 123.45 kWh" yields `energy_used = "123.45"`, whatever follows |
| `Bedrock.JitteredDelaysGrow` | bedrock_lambda/app.py:100 | whatever the jitter in [0, 1), the delay before a retry is strictly longer than the delay before the previous one |
| `Bedrock.EventKey` | bedrock_lambda/app.py:31 | the key lookup succeeds exactly when the event has `Records`, the list is not empty and its first record has a `key`, and then it returns that key |
| `Bedrock.OutputKey` | bedrock_lambda/app.py:87-88 | the result key contains no `/`; it is the stem of the input key followed by `_result.json` |
| `Bedrock.OutputKeyIgnoresDirectory` | bedrock_lambda/app.py:87-88 | the result key depends only on the last `/`-segment of the input key |
| `Bedrock.OutputKeyOfStem` | bedrock_lambda/app.py:87-88 | two input keys with the same stem give the same result key |
| `Bedrock.Attempts` | bedrock_lambda/app.py:65-108 | the retry loop from attempt `n` starts with call `n` and takes at least one step and at most `2 * (5 - n) - 1` steps (its calls and the sleeps between them) |
| `Bedrock.Backoff` | bedrock_lambda/app.py:98-102 | `n` throttled attempts take `2 * n` steps, a call and a sleep each |
| `Bedrock.BackoffAt` | bedrock_lambda/app.py:98-102 | step `q` of `n` throttled attempts is call number `q / 2` when `q` is even, and otherwise the sleep of base `2 ** (q / 2)` after it |
| `Bedrock.Run` | bedrock_lambda/app.py:30-108 | a run makes no call exactly when the event has no key; otherwise it starts by reading that key; it takes at most eleven steps (a read, five calls, four sleeps, a write); a 200 needs a successful read and write and ends with the write |
| `Bedrock.AttemptsUnroll` | bedrock_lambda/app.py:66-105 | after `n` throttled attempts, the loop has made `n` calls with a sleep after each, and it continues from attempt `n` |
| `Bedrock.RunSucceedsAt` | bedrock_lambda/app.py:66-96 | a call that succeeds after `n` throttled ones leads to exactly one write, which holds the extracted terms and the model reply under the derived key; the write's outcome decides between 200 and 500 |
| `Bedrock.RunFailsAt` | bedrock_lambda/app.py:98-108 | a non-throttling error, or throttling on the fifth attempt, ends the run with 500; the trace stops at that call and there is no write |
| `Bedrock.LambdaHandler` | bedrock_lambda/app.py:30-108 | the step-by-step handler, with its `for attempt in range(max_retries)` loop, produces exactly the reply and trace of `Run` |
| `Bedrock.BackoffSteps` | bedrock_lambda/app.py:98-102 | `n` throttled attempts call with attempt numbers 0 to `n - 1` and sleep with bases 1, 2, ..., `2 ** (n - 1)` |
| `Bedrock.BackoffWritesNothing` | bedrock_lambda/app.py:98-102 | throttled attempts never write |
| `Bedrock.RunTraceShape` | bedrock_lambda/app.py:33-105 | once the file is read, the trace is the read, the retry loop's calls and sleeps up to the last call, and then at most one write; a write happens only after a successful call, and it holds that call's reply and the extracted terms |
| `Bedrock.DoublingsIncrease` | bedrock_lambda/app.py:100 | the backoff bases are strictly increasing |
| `Bedrock.RetryShape` | bedrock_lambda/app.py:65-108 | the loop stops at the first attempt that is not throttled, or at the fifth; every earlier attempt was throttled, and that attempt decides the outcome |
| `Bedrock.SleepsPlaced` | bedrock_lambda/app.py:98-102 | in the read, the loop's steps and an optional write, every sleep comes right after a call `k`, has base `2 ** k`, and comes right before call `k + 1` |
| `Bedrock.RunCallsAndSleeps` | bedrock_lambda/app.py:65-105 | every run makes at most five model calls, numbered 0, 1, ... in order; its sleeps have bases 1, 2, 4, ..., one fewer than the calls; every sleep comes right after a call `k`, has base `2 ** k`, and comes right before call `k + 1` |
| `Bedrock.SleepAfterLastCallIsNotCadence` | bedrock_lambda/app.py:98-105 | a trace that sleeps after its last call does not have the retry cadence |
| `Bedrock.RunSleepsGrow` | bedrock_lambda/app.py:100-102 | the sleeps of a run have strictly increasing bases |
| `Bedrock.RunWritesOnlyAfterSuccess` | bedrock_lambda/app.py:76-96 | a run writes at most once, as its last step, right after a call that succeeded when every earlier call had been throttled; it writes the terms of the text it read and that call's reply, under the derived key |
| `Bedrock.RunSucceedsIff` | bedrock_lambda/app.py:33-96 | the status is 200 exactly when the event has a key, the read succeeds, some call succeeds after only throttled ones, and the write succeeds |
| `Bedrock.RunStatusCodes` | bedrock_lambda/app.py:30-108 | an exception escapes exactly when the event has no key; the status is 404 exactly for a missing object; every other reply is 200 or 500 |
| `Bedrock.ReadFailureStopsRun` | bedrock_lambda/app.py:33-41 | a failed read replies 404 (missing object) or 500 (any other error) right after the read, with no model call and no write |
| `Bedrock.ThrottledFourTimesThenGenerated` | bedrock_lambda/app.py:65-105 | four throttled calls followed by a successful one give 200, with five calls, sleeps of base 1, 2, 4 and 8, and one write |
| `Bedrock.ThrottledEveryTime` | bedrock_lambda/app.py:98-105 | throttling on all five calls gives 500 after five calls and four sleeps, with no write |
| `Bedrock.FirstCallFails` | bedrock_lambda/app.py:106-108 | a non-throttling error on the first call gives 500 after that single call |
| `Textract.ExtractText` | textract_lambda/app.py:32-37 | the loop's result is the text list `Selected` describes, or the `KeyError` of a block without `BlockType` |
| `Textract.Selected` | textract_lambda/app.py:32-37 | `extract_text` raises exactly when some block has no `BlockType`; otherwise it returns no more lines than there are blocks |
| `Textract.NoBlocksNoLines` | textract_lambda/app.py:34 | a reply without `Blocks` yields `[]` |
| `Textract.SelectedPicks` | textract_lambda/app.py:33-37 | each line is the text of a block of the requested type; the lines follow the blocks' order; every block of that type contributes one line |
| `Textract.SelectedCount` | textract_lambda/app.py:33-37 | there are as many lines as blocks of the requested type |
| `Textract.UntextedBlockGivesEmptyLine` | textract_lambda/app.py:36 | a selected block without `Text` contributes the empty line |
| `Textract.IsJpg` | textract_lambda/app.py:50 | a file name passes the check exactly when it ends in `.`, `j`, `p` and `g`, each letter in either case |
| `Textract.OutputKey` | textract_lambda/app.py:77 | the output key starts with `output/` and ends in `.txt`; split on `/`, it is `output` followed by the stem plus `.txt` |
| `Textract.Body` | textract_lambda/app.py:84 | when there is at least one line and no line holds a newline, splitting the written body on newlines gives back the lines |
| `Textract.Run` | textract_lambda/app.py:39-99 | a run makes at most two calls; the first one is a detection on a `.jpg` file; a 200 comes only after a detection and a write |
| `Textract.LambdaHandler` | textract_lambda/app.py:39-99 | the step-by-step handler produces exactly the reply and trace of `Run` |
| `Textract.NoRecordsNoCalls` | textract_lambda/app.py:44-45 | an event without records, or with an empty record list, gives 500 with no detection call and no write |
| `Textract.NonJpgRejected` | textract_lambda/app.py:50-52 | a file name that does not end in `.jpg` in some letter case gives 500 before any service call |
| `Textract.RunSucceedsIff` | textract_lambda/app.py:43-99 | the status is 200 exactly when the event names a `.jpg` file and its bucket, detection succeeds, every block has a type, and the write succeeds |
| `Textract.RunStatusCodes` | textract_lambda/app.py:91-99 | the handler always replies, with 200 or 500 |
| `Textract.RunCallsInOrder` | textract_lambda/app.py:57-89 | detection happens at most once, first, and only on the event's `.jpg` file in the record's bucket; a write happens at most once, right after a successful detection, and it writes the LINE texts joined with newlines to `output/<stem>.txt` in the record's bucket |

## Left out

- The AWS services are not modelled. Every S3 `get_object` and `put_object`, `invoke_model` and `detect_document_text` call is an outcome given as input.
- The Bedrock read: a missing `S3_BUCKET` variable (`bucket_name` is `None`) and a body that is not UTF-8 both raise inside the read's `try`. They appear as the read outcome `ReadError`. The bucket name is a parameter.
- The Bedrock model call: a reply body that does not decode as JSON raises inside the loop's `try`. It appears as the call outcome `InvokeError`. The model reply is an opaque value.
- JSON encoding of the request and of the written result is not modelled. The written `Analysis` value stands for the serialised object.
- The jitter (`random.uniform(0, 1)`) and `time.sleep` are left out. A `Sleep` action records only the integer base `2 ** attempt`. `Bedrock.JitteredDelaysGrow` covers the jitter's range separately.
- The reply bodies (messages and the error text) are not modelled. Neither are logging, `print` and the traceback formatting of `process_error`.
- `unquote_plus` is not modelled. The Textract file name is taken as already decoded.
- Events are not fully modelled. A record is assumed to have its `s3`, `bucket` and `object` dictionaries. Only the `name` and `key` entries may be missing.
- A Textract record without a bucket `name` passes `Bucket=None` to the client. The client's parameter validation refuses it before any request is sent. The model therefore replies 500 with no call in the trace.
- Missing dictionaries that raise in Bedrock outside the `try`: only a missing `Records` entry, an empty list and a missing `key` are modelled, and they appear as `Uncaught`.
- LabelMatch.Search: `\d` is modelled as the ASCII digits only. Python's `re` on `str` also accepts other Unicode decimal digits.
- Only the eight pattern shapes of `extract_terms` are modelled, not general regular expressions.
- Textract.IsJpg: lower-casing is modelled for ASCII letters only. This is exact for this check: no other character lower-cases to `.`, `j`, `p` or `g`.
- `generate_presigned_url/app.py` is not part of this model. It only delegates to `generate_presigned_url`, with no logic of its own.
