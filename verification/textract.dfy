/**
 * The Textract handler: for an uploaded `.jpg`, run text detection on it,
 * keep the text of the LINE blocks, and write it to `output/<stem>.txt` in
 * the same bucket.
 *
 * The text-detection call and the write are scripted by their outcomes. A
 * run returns the handler's response and the trace of service calls it made.
 */
module Textract {
  import opened Wrappers
  import opened S3Events
  import Paths

  /** One block of a `detect_document_text` reply: its `BlockType` and `Text` entries, each possibly absent. */
  datatype Block = Block(blockType: Option<string>, text: Option<string>)

  /** A `detect_document_text` reply: its `Blocks` list, possibly absent. */
  datatype DetectResult = DetectResult(blocks: Option<seq<Block>>)

  /** How the `detect_document_text` call ends. */
  datatype DetectOutcome = Detected(result: DetectResult) | DetectError

  /** An observable service call of the handler, on the record's bucket. */
  datatype Action =
    | DetectDocumentText(bucket: string, name: string)
    | PutObject(bucket: string, key: string, body: string)

  /** The block level the handler extracts. */
  const LineLevel: string := "LINE"

  /** The text a selected block contributes: its `Text`, or `""` without one. */
  function TextOf(b: Block): string
  {
    b.text.GetOr("")
  }

  // ---------------------------------------------------------------------
  // extract_text

  /**
   * What `extract_text` returns for `blocks`, scanning them in order:
   * `None` when some block has no `BlockType` (the lookup raises),
   * otherwise the texts of the blocks whose type is `level`.
   */
  function Selected(blocks: seq<Block>, level: string): (r: Option<seq<string>>)
    ensures r.Some? <==> forall j :: 0 <= j < |blocks| ==> blocks[j].blockType.Some?
    ensures r.Some? ==> |r.value| <= |blocks|
  {
    if blocks == [] then Some([])
    else
      match Selected(blocks[..|blocks| - 1], level)
      case None => None
      case Some(lines) =>
        var b := blocks[|blocks| - 1];
        if b.blockType.None? then None
        else if b.blockType.value == level then Some(lines + [TextOf(b)])
        else Some(lines)
  }

  /** The blocks of a reply, an absent `Blocks` entry read as no blocks. */
  function BlocksOf(response: DetectResult): seq<Block>
  {
    response.blocks.GetOr([])
  }

  /** `extract_text`: `None` stands for the `KeyError` a block without `BlockType` raises. */
  method ExtractText(response: DetectResult, extractBy: string) returns (text: Option<seq<string>>)
    ensures text == Selected(BlocksOf(response), extractBy)
  {
    var blocks := BlocksOf(response);
    var lines: seq<string> := [];
    for q := 0 to |blocks|
      invariant Selected(blocks[..q], extractBy) == Some(lines)
    {
      var block := blocks[q];
      assert blocks[..q + 1][..q] == blocks[..q];
      if block.blockType.None? {
        SelectedNoneStays(blocks, extractBy, q + 1);
        return None;
      }
      if block.blockType.value == extractBy {
        lines := lines + [TextOf(block)];
      }
    }
    assert blocks[..|blocks|] == blocks;
    return Some(lines);
  }

  /** Once a prefix of the blocks makes `extract_text` raise, so does the whole list. */
  lemma {:induction false} SelectedNoneStays(blocks: seq<Block>, level: string, n: nat)
    requires n <= |blocks| && Selected(blocks[..n], level).None?
    ensures Selected(blocks, level).None?
    decreases |blocks| - n
  {
    if n < |blocks| {
      assert blocks[..n + 1][..n] == blocks[..n];
      SelectedNoneStays(blocks, level, n + 1);
    } else {
      assert blocks[..n] == blocks;
    }
  }

  /** A reply without `Blocks` yields no lines. */
  lemma NoBlocksNoLines(response: DetectResult, level: string)
    requires response.blocks.None?
    ensures Selected(BlocksOf(response), level) == Some([])
  {
  }

  /** The positions of the blocks of type `level`. */
  ghost function Matching(blocks: seq<Block>, level: string): set<nat>
  {
    set j: nat | j < |blocks| && blocks[j].blockType == Some(level)
  }

  /**
   * The lines are the texts of exactly the blocks of type `level`, in their
   * order: `idx` lists those blocks' positions, strictly increasing, and
   * misses none of them.
   */
  lemma {:induction false} SelectedPicks(blocks: seq<Block>, level: string) returns (idx: seq<nat>)
    requires Selected(blocks, level).Some?
    ensures var lines := Selected(blocks, level).value;
      |idx| == |lines|
      && (forall q :: 0 <= q < |idx| ==>
            idx[q] < |blocks| && blocks[idx[q]].blockType == Some(level) && lines[q] == TextOf(blocks[idx[q]]))
      && (forall q, q' :: 0 <= q < q' < |idx| ==> idx[q] < idx[q'])
      && (forall j: nat :: j in Matching(blocks, level) ==> j in idx)
  {
    if blocks == [] {
      idx := [];
    } else {
      var n := |blocks| - 1;
      var init := blocks[..n];
      var b := blocks[n];
      var prev := SelectedPicks(init, level);
      var lines := Selected(init, level).value;
      assert forall j :: 0 <= j < n ==> init[j] == blocks[j];
      if b.blockType == Some(level) {
        idx := prev + [n];
        assert Selected(blocks, level).value == lines + [TextOf(b)];
        forall j: nat | j in Matching(blocks, level) ensures j in idx {
          if j < n {
            assert j in Matching(init, level);
          } else {
            assert idx[|prev|] == j;
          }
        }
      } else {
        idx := prev;
        forall j: nat | j in Matching(blocks, level) ensures j in idx {
          assert j in Matching(init, level);
        }
      }
    }
  }

  /** There are as many lines as blocks of type `level`. */
  lemma {:induction false} SelectedCount(blocks: seq<Block>, level: string)
    requires Selected(blocks, level).Some?
    ensures |Selected(blocks, level).value| == |Matching(blocks, level)|
  {
    if blocks != [] {
      var n := |blocks| - 1;
      var init := blocks[..n];
      SelectedCount(init, level);
      assert forall j :: 0 <= j < n ==> init[j] == blocks[j];
      if blocks[n].blockType == Some(level) {
        assert Matching(blocks, level) == Matching(init, level) + {n};
        assert n !in Matching(init, level);
      } else {
        assert Matching(blocks, level) == Matching(init, level);
      }
    } else {
      assert Matching(blocks, level) == {};
    }
  }

  /** A block of type `level` without `Text` contributes the empty line. */
  lemma UntextedBlockGivesEmptyLine(blocks: seq<Block>, level: string, j: nat)
    requires Selected(blocks, level).Some?
    requires j < |blocks| && blocks[j].blockType == Some(level) && blocks[j].text.None?
    ensures "" in Selected(blocks, level).value
  {
    var idx := SelectedPicks(blocks, level);
    assert j in Matching(blocks, level);
    var q :| 0 <= q < |idx| && idx[q] == j;
    assert Selected(blocks, level).value[q] == "";
  }

  // ---------------------------------------------------------------------
  // The extension check and the output

  /** `str.lower` on one character, for ASCII letters. */
  function Lower(c: char): char
  {
    if 'A' <= c <= 'Z' then (c as int + 32) as char else c
  }

  function LowerString(s: string): (r: string)
    ensures |r| == |s|
    ensures forall i :: 0 <= i < |s| ==> r[i] == Lower(s[i])
  {
    if s == [] then [] else [Lower(s[0])] + LowerString(s[1..])
  }

  function EndsWith(s: string, suffix: string): bool
  {
    |suffix| <= |s| && s[|s| - |suffix|..] == suffix
  }

  /**
   * `filename.lower().endswith(".jpg")`: it accepts exactly the names ending
   * in `.` and `j`, `p`, `g`, each in either case.
   */
  function IsJpg(filename: string): (r: bool)
    ensures r <==>
      var n := |filename|;
      n >= 4 && filename[n - 4] == '.' && filename[n - 3] in {'j', 'J'}
      && filename[n - 2] in {'p', 'P'} && filename[n - 1] in {'g', 'G'}
  {
    var low := LowerString(filename);
    var n := |filename|;
    assert n >= 4 ==> low[n - 4..] == [low[n - 4], low[n - 3], low[n - 2], low[n - 1]];
    EndsWith(low, ".jpg")
  }

  /** `output/` + the stem of the file name + `.txt`. */
  function OutputKey(filename: string): (r: string)
    ensures |r| >= 11 && r[..7] == "output/" && r[|r| - 4..] == ".txt"
    ensures Paths.Split(r, '/') == ["output", Paths.Stem(filename) + ".txt"]
  {
    var stem := Paths.Stem(filename);
    var r := "output/" + stem + ".txt";
    assert r[..7] == "output/" && r[|r| - 4..] == ".txt";
    assert r == Paths.Join(["output", stem + ".txt"], '/');
    assert '/' !in stem + ".txt";
    Paths.SplitOfJoin(["output", stem + ".txt"], '/');
    r
  }

  /**
   * The written body: the lines joined with newlines. Splitting it on
   * newlines gives back the lines, when there is at least one and none holds
   * a newline.
   */
  function Body(lines: seq<string>): (r: string)
    ensures |lines| >= 1 && (forall q :: 0 <= q < |lines| ==> '\n' !in lines[q]) ==> Paths.Split(r, '\n') == lines
  {
    LinesSplitBack(lines);
    Paths.Join(lines, '\n')
  }

  lemma LinesSplitBack(lines: seq<string>)
    ensures |lines| >= 1 && (forall q :: 0 <= q < |lines| ==> '\n' !in lines[q]) ==>
      Paths.Split(Paths.Join(lines, '\n'), '\n') == lines
  {
    if |lines| >= 1 && (forall q :: 0 <= q < |lines| ==> '\n' !in lines[q]) {
      Paths.SplitOfJoin(lines, '\n');
    }
  }

  // ---------------------------------------------------------------------
  // lambda_handler

  /**
   * A whole invocation of the handler: at most one detection, on a `.jpg`
   * file, and a 200 only after a detection and one write. A record without a
   * bucket name fails before any call: the client refuses `Bucket=None`
   * before sending the request.
   */
  function Run(event: Event, detect: DetectOutcome, write: WriteOutcome): (r: (Response, seq<Action>))
    ensures |r.1| <= 2
    ensures r.1 != [] ==> r.1[0].DetectDocumentText? && IsJpg(r.1[0].name)
    ensures r.0 == Reply(200) ==> |r.1| == 2 && r.1[1].PutObject?
  {
    match event.records
    case None => (Reply(500), [])
    case Some(records) =>
      if |records| == 0 then (Reply(500), [])
      else
        var filename := records[0].key.GetOr("");
        if !IsJpg(filename) then (Reply(500), [])
        else if records[0].bucket.None? then (Reply(500), [])
        else
          var bucket := records[0].bucket.value;
          var call := DetectDocumentText(bucket, filename);
          match detect
          case DetectError => (Reply(500), [call])
          case Detected(result) =>
            match Selected(BlocksOf(result), LineLevel)
            case None => (Reply(500), [call])
            case Some(lines) =>
              var put := PutObject(bucket, OutputKey(filename), Body(lines));
              (Reply(if write == Stored then 200 else 500), [call, put])
  }

  /** `lambda_handler`, calling the services through their scripted outcomes. */
  method LambdaHandler(event: Event, detect: DetectOutcome, write: WriteOutcome)
    returns (response: Response, trace: seq<Action>)
    ensures (response, trace) == Run(event, detect, write)
  {
    trace := [];
    if event.records.None? {
      return Reply(500), trace;
    }
    var records := event.records.value;
    if |records| == 0 {
      return Reply(500), trace;
    }
    var filename := records[0].key.GetOr("");
    if !IsJpg(filename) {
      return Reply(500), trace;
    }
    if records[0].bucket.None? {
      return Reply(500), trace;
    }
    var bucket := records[0].bucket.value;
    var call := DetectDocumentText(bucket, filename);
    trace := [call];
    if detect.DetectError? {
      return Reply(500), trace;
    }
    var rawText := ExtractText(detect.result, LineLevel);
    if rawText.None? {
      assert Run(event, detect, write) == (Reply(500), [call]);
      return Reply(500), trace;
    }
    var outputKey := OutputKey(filename);
    trace := [call, PutObject(bucket, outputKey, Body(rawText.value))];
    assert Run(event, detect, write).1 == trace;
    if write == WriteError {
      return Reply(500), trace;
    }
    return Reply(200), trace;
  }

  // ---------------------------------------------------------------------
  // What a run does

  /** The file name a run works on, when the event has a first record. */
  function FileName(event: Event): Option<string>
  {
    match event.records
    case None => None
    case Some(records) => if |records| == 0 then None else Some(records[0].key.GetOr(""))
  }

  /** The bucket name a run works on, when the event has a first record that names one. */
  function BucketName(event: Event): Option<string>
  {
    match event.records
    case None => None
    case Some(records) => if |records| == 0 then None else records[0].bucket
  }

  /** An event without records fails with 500 before any service call. */
  lemma NoRecordsNoCalls(event: Event, detect: DetectOutcome, write: WriteOutcome)
    requires FileName(event).None?
    ensures Run(event, detect, write) == (Reply(500), [])
  {
  }

  /** A file whose name does not end in `.jpg`, in any case, fails with 500 before any service call. */
  lemma NonJpgRejected(event: Event, detect: DetectOutcome, write: WriteOutcome)
    requires FileName(event).Some?
    requires (var f := FileName(event).value;
              |f| < 4 || Lower(f[|f| - 4]) != '.' || Lower(f[|f| - 3]) != 'j'
              || Lower(f[|f| - 2]) != 'p' || Lower(f[|f| - 1]) != 'g')
    ensures Run(event, detect, write) == (Reply(500), [])
  {
  }

  /**
   * Status 200 exactly when the event names a `.jpg` file and its bucket, the
   * detection succeeds, every block has a type, and the write succeeds.
   */
  lemma RunSucceedsIff(event: Event, detect: DetectOutcome, write: WriteOutcome)
    ensures Run(event, detect, write).0 == Reply(200) <==>
      FileName(event).Some? && IsJpg(FileName(event).value) && BucketName(event).Some? && detect.Detected?
      && (forall j :: 0 <= j < |BlocksOf(detect.result)| ==> BlocksOf(detect.result)[j].blockType.Some?)
      && write == Stored
  {
    if FileName(event).Some? && IsJpg(FileName(event).value) && BucketName(event).Some? {
      var call := DetectDocumentText(BucketName(event).value, FileName(event).value);
      if detect.Detected? {
        match Selected(BlocksOf(detect.result), LineLevel)
        case None =>
          assert Run(event, detect, write) == (Reply(500), [call]);
        case Some(lines) =>
          assert Run(event, detect, write).0 == Reply(if write == Stored then 200 else 500);
      } else {
        assert Run(event, detect, write) == (Reply(500), [call]);
      }
    } else {
      assert Run(event, detect, write).0 == Reply(500);
    }
  }

  /** The handler always answers, with 200 or 500. */
  lemma RunStatusCodes(event: Event, detect: DetectOutcome, write: WriteOutcome)
    ensures Run(event, detect, write).0 in {Reply(200), Reply(500)}
  {
  }

  /**
   * A run detects at most once, on the event's `.jpg` file in its bucket, and writes at
   * most once, right after a successful detection: the LINE texts, joined
   * with newlines, under `output/<stem>.txt` in the record's bucket.
   */
  lemma RunCallsInOrder(event: Event, detect: DetectOutcome, write: WriteOutcome)
    ensures var trace := Run(event, detect, write).1;
      |trace| <= 2
      && (|trace| >= 1 ==>
            FileName(event).Some? && BucketName(event).Some? && IsJpg(FileName(event).value)
            && trace[0] == DetectDocumentText(BucketName(event).value, FileName(event).value))
      && (|trace| == 2 ==>
            detect.Detected? && Selected(BlocksOf(detect.result), LineLevel).Some?
            && trace[1] == PutObject(trace[0].bucket, OutputKey(trace[0].name),
                                     Body(Selected(BlocksOf(detect.result), LineLevel).value)))
  {
  }
}
