/**
 * The operation enumeration and the dispatch table indexed by it. A table
 * entry's main and worker functions are named by the entry points they stand
 * for; the pipeline runner dispatches on those names.
 */
module Operations {
  datatype Option<T> = None | Some(value: T)

  datatype OperationType = HFLIP | INVERT | BLUR

  /** Number of operations, also the bound of the parser's table loop. */
  const COUNT: nat := 3

  /** Coordinator entry points. */
  datatype MainFunction = HflipMainFn | InvertMainFn | BlurMainFn

  /** Worker entry points. */
  datatype WorkerFunction = HflipWorkerFn | InvertWorkerFn | BlurWorkerFn

  datatype Operation = Operation(kind: OperationType, mainFunction: MainFunction, workerFunction: WorkerFunction, name: string)

  /** The table, in enumeration order. */
  const Table: seq<Operation> := [
    Operation(HFLIP, HflipMainFn, HflipWorkerFn, "hflip"),
    Operation(INVERT, InvertMainFn, InvertWorkerFn, "invert"),
    Operation(BLUR, BlurMainFn, BlurWorkerFn, "blur")
  ]

  /** The integer an operation is stored and broadcast as. */
  function Tag(op: OperationType): (t: nat)
    ensures t < COUNT
  {
    match op
    case HFLIP => 0
    case INVERT => 1
    case BLUR => 2
  }

  /** Reading an integer back as an operation; only the enumerated tags name one. */
  function FromTag(t: int): (r: Option<OperationType>)
    ensures r.Some? <==> 0 <= t < COUNT
    ensures r.Some? ==> Tag(r.value) == t
  {
    if t == 0 then Some(HFLIP)
    else if t == 1 then Some(INVERT)
    else if t == 2 then Some(BLUR)
    else None
  }

  /** Decoding an encoded operation returns it. */
  lemma TagRoundTrip(op: OperationType)
    ensures FromTag(Tag(op)) == Some(op)
  {
  }

  /** Distinct operations have distinct tags. */
  lemma TagInjective(a: OperationType, b: OperationType)
    ensures Tag(a) == Tag(b) <==> a == b
  {
  }

  /** The operation a coordinator entry point performs. */
  function MainOp(f: MainFunction): OperationType
  {
    match f
    case HflipMainFn => HFLIP
    case InvertMainFn => INVERT
    case BlurMainFn => BLUR
  }

  /** The operation a worker entry point performs. */
  function WorkerOp(f: WorkerFunction): OperationType
  {
    match f
    case HflipWorkerFn => HFLIP
    case InvertWorkerFn => INVERT
    case BlurWorkerFn => BLUR
  }

  /** The entry an operation dispatches to: the table indexed by its tag. */
  function Lookup(op: OperationType): (e: Operation)
    ensures e.kind == op
    ensures MainOp(e.mainFunction) == op && WorkerOp(e.workerFunction) == op
  {
    Table[Tag(op)]
  }

  /**
   * The table has `COUNT` entries, entry `i` has type `i`, and each entry pairs
   * the main and worker functions of its own operation.
   */
  lemma TableIndexed()
    ensures |Table| == COUNT
    ensures forall i :: 0 <= i < COUNT ==> FromTag(i) == Some(Table[i].kind)
    ensures forall i :: 0 <= i < COUNT ==>
      MainOp(Table[i].mainFunction) == Table[i].kind == WorkerOp(Table[i].workerFunction)
  {
  }

  /** The names are pairwise distinct, so a line matches at most one entry. */
  lemma NamesDistinct()
    ensures forall i, j :: 0 <= i < j < |Table| ==> Table[i].name != Table[j].name
  {
  }
}
