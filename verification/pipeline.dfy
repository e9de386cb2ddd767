/**
 * The pipeline driver: reading the pipeline file's lines into an operation
 * list, broadcasting that list and the image size to the workers, and running
 * the stages with the coordinator's two buffers swapped after every stage.
 */
module Pipeline {
  import opened Pixels
  import opened Operations
  import opened Hflip
  import opened Invert
  import opened BoxBlur
  import opened Blur

  // ---------------------------------------------------------------------------
  // Reading the pipeline file

  /** A line whose first character is `#`. An empty line's first character is the terminator, not `#`. */
  predicate IsComment(line: string)
  {
    |line| > 0 && line[0] == '#'
  }

  datatype LineKind = Comment | Names(op: OperationType) | Invalid

  /** What one line of the pipeline file contributes. */
  function ClassifyLine(line: string): (k: LineKind)
    ensures k.Comment? <==> IsComment(line)
    ensures k.Names? ==> !IsComment(line) && line == Lookup(k.op).name
    ensures k.Invalid? <==> !IsComment(line) && forall i :: 0 <= i < |Table| ==> line != Table[i].name
  {
    if IsComment(line) then Comment else MatchFrom(line, 0)
  }

  /** The first table entry at or after `i` whose name is `line`. */
  function MatchFrom(line: string, i: nat): (k: LineKind)
    requires i <= |Table|
    ensures !k.Comment?
    ensures k.Names? ==> line == Lookup(k.op).name
    ensures k.Invalid? <==> forall j :: i <= j < |Table| ==> line != Table[j].name
    decreases |Table| - i
  {
    if i == |Table| then Invalid
    else if line == Table[i].name then (TableIndexed(); Names(Table[i].kind))
    else MatchFrom(line, i + 1)
  }

  /** The operations named by `lines`, in line order, comments skipped. */
  function Kept(lines: seq<string>): (ks: seq<OperationType>)
    ensures |ks| <= |lines|
    ensures forall s :: 0 <= s < |ks| ==> Lookup(ks[s]).name in lines
  {
    if |lines| == 0 then []
    else
      Kept(lines[..|lines| - 1]) +
      match ClassifyLine(lines[|lines| - 1]) case Names(op) => [op] case _ => []
  }

  /** Number of lines that are not comments. */
  function NonComments(lines: seq<string>): nat
  {
    if |lines| == 0 then 0
    else NonComments(lines[..|lines| - 1]) + if IsComment(lines[|lines| - 1]) then 0 else 1
  }

  predicate AllValid(lines: seq<string>)
  {
    forall j :: 0 <= j < |lines| ==> !ClassifyLine(lines[j]).Invalid?
  }

  /** When every line is valid, one operation is kept per non-comment line. */
  lemma {:induction false} KeptCount(lines: seq<string>)
    requires AllValid(lines)
    ensures |Kept(lines)| == NonComments(lines)
  {
    if |lines| > 0 {
      var init := lines[..|lines| - 1];
      assert AllValid(init) by {
        forall j | 0 <= j < |init| ensures !ClassifyLine(init[j]).Invalid? {
          assert init[j] == lines[j];
        }
      }
      KeptCount(init);
      assert !ClassifyLine(lines[|lines| - 1]).Invalid?;
    }
  }

  /** Reading two files' worth of lines keeps their operations in order. */
  lemma {:induction false} KeptConcat(a: seq<string>, b: seq<string>)
    ensures Kept(a + b) == Kept(a) + Kept(b)
    decreases |b|
  {
    if |b| > 0 {
      var b' := b[..|b| - 1];
      assert (a + b)[..|a + b| - 1] == a + b';
      KeptConcat(a, b');
    } else {
      assert a + b == a;
    }
  }

  /** An operation is kept only where a line names it. */
  lemma {:induction false} KeptNamed(lines: seq<string>, op: OperationType)
    requires op in Kept(lines)
    ensures exists j :: 0 <= j < |lines| && lines[j] == Lookup(op).name
  {
    var init := lines[..|lines| - 1];
    if op in Kept(init) {
      KeptNamed(init, op);
      var j :| 0 <= j < |init| && init[j] == Lookup(op).name;
      assert lines[j] == init[j];
    } else {
      assert lines[|lines| - 1] == Lookup(op).name;
    }
  }

  datatype ParseResult = Parsed(ops: seq<OperationType>) | InvalidLine(index: nat, line: string)

  /**
   * Read the lines in order, appending the operation each names and skipping
   * comments; the first line that is neither is fatal.
   */
  method ParsePipeline(lines: seq<string>) returns (r: ParseResult)
    ensures r.Parsed? <==> AllValid(lines)
    ensures r.Parsed? ==> r.ops == Kept(lines)
    ensures r.InvalidLine? ==>
      r.index < |lines| && r.line == lines[r.index] && ClassifyLine(r.line).Invalid? &&
      AllValid(lines[..r.index])
  {
    var ops: seq<OperationType> := [];
    var j := 0;
    while j < |lines|
      invariant j <= |lines|
      invariant AllValid(lines[..j])
      invariant ops == Kept(lines[..j])
    {
      var line := lines[j];
      var i := 0;
      while i < COUNT
        invariant i <= COUNT
        invariant i > 0 ==> !IsComment(line)
        invariant forall k :: 0 <= k < i ==> line != Table[k].name
        invariant ops == Kept(lines[..j])
      {
        if |line| > 0 && line[0] == '#' {
          break;
        }
        if line == Table[i].name {
          TableIndexed();
          ops := ops + [FromTag(i).value];
          break;
        }
        i := i + 1;
      }
      if i == COUNT {
        assert ClassifyLine(line).Invalid?;
        return InvalidLine(j, line);
      }
      assert lines[..j + 1][..j] == lines[..j];
      j := j + 1;
    }
    assert lines[..j] == lines;
    return Parsed(ops);
  }

  // ---------------------------------------------------------------------------
  // What a pipeline computes

  /** Blur's send offsets need `BlurSafe`; the other operations run for every process count. */
  predicate Runnable(ops: seq<OperationType>, h: nat, n: nat)
  {
    n >= 1 && (BLUR in ops ==> BlurSafe(h, n))
  }

  /** One stage, as the coordinator's entry point computes it with `n` processes. */
  function ApplyOp(op: OperationType, img: seq<Color>, w: nat, h: nat, n: nat): (r: seq<Color>)
    requires |img| == h * w && n >= 1 && (op == BLUR ==> BlurSafe(h, n))
    ensures |r| == |img|
  {
    match op
    case HFLIP => Flipped(img, w, h)
    case INVERT => Inverted(img)
    case BLUR => DistributedBlur(img, w, h, n)
  }

  /** The stages applied in list order, each to the previous one's result. */
  function ApplyAll(ops: seq<OperationType>, img: seq<Color>, w: nat, h: nat, n: nat): (r: seq<Color>)
    requires |img| == h * w && Runnable(ops, h, n)
    ensures |r| == |img|
  {
    if |ops| == 0 then img
    else
      var init := ops[..|ops| - 1];
      assert BLUR in init ==> BLUR in ops;
      ApplyOp(ops[|ops| - 1], ApplyAll(init, img, w, h, n), w, h, n)
  }

  /** The first `s + 1` stages are stage `s` applied to the result of the first `s`. */
  lemma ApplyStep(ops: seq<OperationType>, s: nat, img: seq<Color>, w: nat, h: nat, n: nat)
    requires |img| == h * w && Runnable(ops, h, n) && s < |ops|
    ensures Runnable(ops[..s], h, n) && Runnable(ops[..s + 1], h, n)
    ensures ops[s] == BLUR ==> BlurSafe(h, n)
    ensures ApplyAll(ops[..s + 1], img, w, h, n) == ApplyOp(ops[s], ApplyAll(ops[..s], img, w, h, n), w, h, n)
  {
    assert ops[..s + 1][..s] == ops[..s];
    assert forall op :: op in ops[..s + 1] ==> op in ops;
    assert ops[s] in ops;
  }

  /** The single-process pipeline: every stage is the whole-image operation. */
  function Sequential(ops: seq<OperationType>, img: seq<Color>, w: nat, h: nat): (r: seq<Color>)
    requires |img| == h * w
    ensures |r| == |img|
  {
    if |ops| == 0 then img
    else
      var prev := Sequential(ops[..|ops| - 1], img, w, h);
      match ops[|ops| - 1]
      case HFLIP => Flipped(prev, w, h)
      case INVERT => Inverted(prev)
      case BLUR => Blurred(prev, w, h)
  }

  /** Running `a` then `b` is running `a + b`. */
  lemma {:induction false} ApplyConcat(a: seq<OperationType>, b: seq<OperationType>, img: seq<Color>, w: nat, h: nat, n: nat)
    requires |img| == h * w && Runnable(a + b, h, n)
    ensures Runnable(a, h, n) && Runnable(b, h, n)
    ensures ApplyAll(a + b, img, w, h, n) == ApplyAll(b, ApplyAll(a, img, w, h, n), w, h, n)
    decreases |b|
  {
    assert forall op :: op in a ==> op in a + b;
    assert forall op :: op in b ==> op in a + b;
    if |b| == 0 {
      assert a + b == a;
    } else {
      var b' := b[..|b| - 1];
      assert (a + b)[..|a + b| - 1] == a + b';
      assert forall op :: op in a + b' ==> op in a + b;
      ApplyConcat(a, b', img, w, h, n);
    }
  }

  /** With one process the pipeline is the single-process pipeline. */
  lemma {:induction false} OneProcessPipeline(ops: seq<OperationType>, img: seq<Color>, w: nat, h: nat)
    requires |img| == h * w
    ensures Runnable(ops, h, 1)
    ensures ApplyAll(ops, img, w, h, 1) == Sequential(ops, img, w, h)
  {
    if |ops| > 0 {
      var init := ops[..|ops| - 1];
      OneProcessPipeline(init, img, w, h);
      if ops[|ops| - 1] == BLUR {
        OneProcess(Sequential(init, img, w, h), w, h);
      }
    }
  }

  /** A pipeline without blur gives the single-process result for every process count. */
  lemma {:induction false} WithoutBlur(ops: seq<OperationType>, img: seq<Color>, w: nat, h: nat, n: nat)
    requires |img| == h * w && n >= 1 && BLUR !in ops
    ensures Runnable(ops, h, n)
    ensures ApplyAll(ops, img, w, h, n) == Sequential(ops, img, w, h)
  {
    if |ops| > 0 {
      var init := ops[..|ops| - 1];
      assert BLUR in init ==> BLUR in ops;
      WithoutBlur(init, img, w, h, n);
    }
  }

  /** `hflip` twice, or `invert` twice, leaves the image as it was. */
  lemma TwiceIsIdentity(op: OperationType, img: seq<Color>, w: nat, h: nat, n: nat)
    requires |img| == h * w && n >= 1 && op != BLUR
    ensures Runnable([op, op], h, n)
    ensures ApplyAll([op, op], img, w, h, n) == img
  {
    assert [op, op][..1] == [op];
    assert [op][..0] == [];
    assert ApplyAll([], img, w, h, n) == img;
    if op == HFLIP {
      assert ApplyAll([op], img, w, h, n) == Flipped(img, w, h);
      FlipTwice(img, w, h);
    } else {
      assert ApplyAll([op], img, w, h, n) == Inverted(img);
      InvertTwice(img);
    }
  }

  // ---------------------------------------------------------------------------
  // Running a pipeline

  /** Call the coordinator entry point a table entry names. */
  method RunMain(f: MainFunction, image: array<Color>, w: nat, h: nat, output: array<Color>, n: nat)
    requires n >= 1 && (MainOp(f) == BLUR ==> BlurSafe(h, n))
    requires image.Length == h * w && output.Length == h * w && image != output
    modifies output
    ensures output[..] == ApplyOp(MainOp(f), image[..], w, h, n)
  {
    match f
    case HflipMainFn => HflipMain(image, w, h, output, n);
    case InvertMainFn => InvertMain(image, w, h, output, n);
    case BlurMainFn => BlurMain(image, w, h, output, n);
  }

  /**
   * The coordinator's stage loop: each stage reads the buffer the previous one
   * wrote and writes the other, the two are swapped, and a final copy leaves
   * the result in the caller's buffer whether the number of stages is odd or
   * even. `calls` lists the entry points called, in order.
   */
  method RunOperationsMain(image: array<Color>, w: nat, h: nat, ops: seq<OperationType>, n: nat)
    returns (calls: seq<MainFunction>)
    requires image.Length == h * w && Runnable(ops, h, n)
    modifies image
    ensures image[..] == ApplyAll(ops, old(image[..]), w, h, n)
    ensures |calls| == |ops| && forall s :: 0 <= s < |ops| ==> MainOp(calls[s]) == ops[s]
  {
    ghost var original := image[..];
    var output := new Color[h * w];
    var current, next := image, output;
    calls := [];
    for s := 0 to |ops|
      invariant (current == image && next == output) || (current == output && next == image)
      invariant Runnable(ops[..s], h, n)
      invariant current[..] == ApplyAll(ops[..s], original, w, h, n)
      invariant |calls| == s && forall t :: 0 <= t < s ==> MainOp(calls[t]) == ops[t]
    {
      ApplyStep(ops, s, original, w, h, n);
      var f := Lookup(ops[s]).mainFunction;
      RunMain(f, current, w, h, next, n);
      calls := calls + [f];
      current, next := next, current;
    }
    assert ops[..|ops|] == ops;
    CopyPixels(current, next);
  }

  /** The final copy of the coordinator's stage loop. */
  method CopyPixels(src: array<Color>, dst: array<Color>)
    requires src.Length == dst.Length && src != dst
    modifies dst
    ensures dst[..] == src[..]
  {
    for k := 0 to src.Length
      invariant forall j :: 0 <= j < k ==> dst[j] == src[j]
    {
      dst[k] := src[k];
    }
  }

  /** A worker's stage loop: the worker entry point of every operation, in list order. */
  method RunOperationsWorker(ops: seq<OperationType>) returns (calls: seq<WorkerFunction>)
    ensures |calls| == |ops| && forall s :: 0 <= s < |ops| ==> WorkerOp(calls[s]) == ops[s]
  {
    calls := [];
    for s := 0 to |ops|
      invariant |calls| == s && forall t :: 0 <= t < s ==> WorkerOp(calls[t]) == ops[t]
    {
      calls := calls + [Lookup(ops[s]).workerFunction];
    }
  }

  // ---------------------------------------------------------------------------
  // Broadcasting the pipeline and the image size

  datatype Metadata = Metadata(ops: seq<OperationType>, width: int, height: int)

  function Tags(ops: seq<OperationType>): (ts: seq<int>)
    ensures |ts| == |ops|
    ensures forall s :: 0 <= s < |ops| ==> 0 <= ts[s] < COUNT && FromTag(ts[s]) == Some(ops[s])
  {
    seq(|ops|, s requires 0 <= s < |ops| => (TagRoundTrip(ops[s]); Tag(ops[s])))
  }

  /** Reading a list of integers back as operations; any integer that is no tag makes it fail. */
  function ReadTags(ts: seq<int>): (r: Option<seq<OperationType>>)
    ensures r.Some? <==> forall s :: 0 <= s < |ts| ==> 0 <= ts[s] < COUNT
    ensures r.Some? ==> |r.value| == |ts| && forall s :: 0 <= s < |ts| ==> Tag(r.value[s]) == ts[s]
  {
    if |ts| == 0 then Some([])
    else
      match (ReadTags(ts[..|ts| - 1]), FromTag(ts[|ts| - 1]))
      case (Some(init), Some(op)) => Some(init + [op])
      case _ => None
  }

  /** The coordinator's four broadcasts, in order: operation count, operations, width, height. */
  function Broadcasts(m: Metadata): (b: seq<seq<int>>)
    ensures |b| == 4 && b[0] == [|b[1]|] && b[2] == [m.width] && b[3] == [m.height]
    ensures |b[1]| == |m.ops| && forall s :: 0 <= s < |m.ops| ==> FromTag(b[1][s]) == Some(m.ops[s])
  {
    [[|m.ops|], Tags(m.ops), [m.width], [m.height]]
  }

  /**
   * A worker's four receives, in the same order: it sizes its operation
   * buffer from the first message, so the second must have exactly that
   * length.
   */
  function ReceiveBroadcasts(msgs: seq<seq<int>>): (r: Option<Metadata>)
    ensures r.Some? ==> |msgs| == 4 && msgs[0] == [|r.value.ops|] && msgs[2] == [r.value.width] && msgs[3] == [r.value.height]
  {
    if |msgs| != 4 || |msgs[0]| != 1 || msgs[0][0] != |msgs[1]| || |msgs[2]| != 1 || |msgs[3]| != 1 then None
    else
      match ReadTags(msgs[1])
      case Some(ops) => Some(Metadata(ops, msgs[2][0], msgs[3][0]))
      case None => None
  }

  /** Every worker receives exactly the operations and size the coordinator read. */
  lemma BroadcastRoundTrip(m: Metadata)
    ensures ReceiveBroadcasts(Broadcasts(m)) == Some(m)
  {
    var ts := Tags(m.ops);
    assert ReadTags(ts).Some?;
    var back := ReadTags(ts).value;
    forall s | 0 <= s < |m.ops|
      ensures back[s] == m.ops[s]
    {
      TagInjective(back[s], m.ops[s]);
    }
    assert back == m.ops;
  }

  // ---------------------------------------------------------------------------
  // Coordinator and worker together

  datatype Outcome = Finished(ops: seq<OperationType>) | Fatal(index: nat, line: string)

  /**
   * The coordinator reads the pipeline, broadcasts it with the image size and
   * runs it; the workers decode the broadcasts and run the same stages. On an
   * invalid line the run stops before any stage and the image is untouched.
   */
  method RunPipeline(lines: seq<string>, image: array<Color>, w: nat, h: nat, n: nat)
    returns (outcome: Outcome, mainCalls: seq<MainFunction>, workerCalls: seq<WorkerFunction>)
    requires image.Length == h * w && n >= 1
    requires AllValid(lines) && BLUR in Kept(lines) ==> BlurSafe(h, n)
    modifies image
    ensures outcome.Fatal? <==> !AllValid(lines)
    ensures outcome.Fatal? ==>
      ClassifyLine(outcome.line).Invalid? && image[..] == old(image[..]) && mainCalls == [] && workerCalls == []
    ensures outcome.Fatal? ==>
      outcome.index < |lines| && outcome.line == lines[outcome.index] && AllValid(lines[..outcome.index])
    ensures outcome.Finished? ==>
      outcome.ops == Kept(lines) && Runnable(outcome.ops, h, n) &&
      image[..] == ApplyAll(outcome.ops, old(image[..]), w, h, n)
    ensures outcome.Finished? ==>
      |mainCalls| == |outcome.ops| == |workerCalls| &&
      forall s :: 0 <= s < |outcome.ops| ==> MainOp(mainCalls[s]) == outcome.ops[s] == WorkerOp(workerCalls[s])
  {
    var parsed := ParsePipeline(lines);
    if parsed.InvalidLine? {
      return Fatal(parsed.index, parsed.line), [], [];
    }
    var ops := parsed.ops;
    var received := ReceiveBroadcasts(Broadcasts(Metadata(ops, w, h)));
    BroadcastRoundTrip(Metadata(ops, w, h));
    mainCalls := RunOperationsMain(image, w, h, ops, n);
    workerCalls := RunOperationsWorker(received.value.ops);
    outcome := Finished(ops);
  }
}
