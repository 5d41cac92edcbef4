/** The response transfer: write_responce and read_responce against results of write and read that
    the environment chooses, and the two together over a byte channel. */
module Transfer {

  const MAX_READ_BUFF: nat := 0x1_0000
  const MAX_WRITE_BUFF: nat := 0x1_0000

  /** What a system call returns: a count, a retryable error (EAGAIN, EINTR) or another error. */
  datatype IoResult = Count(n: nat) | Retry | Failed

  datatype Outcome =
    | Returned(value: int)
    | Running       // the given results are used up before the loop ends

  /** The bytes that a sequence of calls has moved. */
  function Total(results: seq<IoResult>): nat {
    if results == [] then 0
    else
      var last := results[|results| - 1];
      Total(results[..|results| - 1]) + if last.Count? then last.n else 0
  }

  function AtMost(n: int, max: nat): int {
    if n > max then max else n
  }

  // The writer.

  /** left: bytes still to write; amount: bytes written. */
  datatype Writer = Writing(left: int, amount: nat) | Written(value: int)

  function WriterStart(flowSize: int): Writer {
    if flowSize > 0 then Writing(flowSize, 0) else Written(0)
  }

  /** The size of the next write. */
  function Chunk(w: Writer): int
    requires w.Writing?
  {
    AtMost(w.left, MAX_WRITE_BUFF)
  }

  /** One turn of the loop. */
  function WriterStep(w: Writer, r: IoResult): Writer
    requires w.Writing?
  {
    match r
    case Failed => Written(-1)
    case Retry => w
    case Count(n) =>
      if w.left - n > 0 then Writing(w.left - n, w.amount + n) else Written(w.amount + n)
  }

  /** A write never accepts more than it was given. */
  predicate WriteResultOk(w: Writer, r: IoResult) {
    w.Writing? ==> r.Count? ==> r.n <= Chunk(w)
  }

  function WriterRun(w: Writer, results: seq<IoResult>): Writer
    decreases |results|
  {
    if results == [] || w.Written? then w
    else WriterRun(WriterStep(w, results[0]), results[1..])
  }

  predicate WriteResultsOk(w: Writer, results: seq<IoResult>)
    decreases |results|
  {
    results != [] && w.Writing? ==>
      WriteResultOk(w, results[0]) && WriteResultsOk(WriterStep(w, results[0]), results[1..])
  }

  /** write_responce. chunks: the sizes passed to write. */
  method WriteResponce(flowSize: int, results: seq<IoResult>) returns (out: Outcome, chunks: seq<int>)
    requires WriteResultsOk(WriterStart(flowSize), results)
    ensures out == match WriterRun(WriterStart(flowSize), results)
                   case Written(v) => Returned(v)
                   case Writing(_, _) => Running
    ensures |chunks| <= |results|
    ensures forall i :: 0 <= i < |chunks| ==>
      var left := flowSize - Total(results[..i]);
      left > 0 && chunks[i] == if left <= 65536 then left else 65536
  {
    var leftSize, amount := flowSize, 0;
    var i := 0;
    chunks := [];
    while leftSize > 0
      invariant 0 <= i <= |results|
      invariant leftSize > 0 ==> WriteResultsOk(Writing(leftSize, amount), results[i..])
      invariant WriterRun(WriterStart(flowSize), results) ==
                if leftSize > 0 then WriterRun(Writing(leftSize, amount), results[i..]) else Written(amount)
      invariant |chunks| == i && leftSize == flowSize - Total(results[..i])
      invariant forall j :: 0 <= j < i ==>
        var left := flowSize - Total(results[..j]);
        left > 0 && chunks[j] == AtMost(left, MAX_WRITE_BUFF)
      decreases |results| - i
    {
      if i == |results| {
        return Running, chunks;
      }
      chunks := chunks + [AtMost(leftSize, MAX_WRITE_BUFF)];
      var r := results[i];
      assert results[i..][1..] == results[i + 1..];
      assert results[..i + 1][..i] == results[..i];
      i := i + 1;
      match r
      case Failed => return Returned(-1), chunks;
      case Retry =>
      case Count(n) =>
        amount := amount + n;
        leftSize := leftSize - n;
    }
    out := Returned(amount);
  }

  // The reader.

  datatype Reader = Reading(amount: nat) | Read(value: int)

  /** One turn of the loop: the amount is tested after the read. */
  function ReaderStep(amount: nat, flowSize: int, r: IoResult): Reader {
    match r
    case Failed => Read(-1)
    case Retry => if amount >= flowSize then Read(amount) else Reading(amount)
    case Count(n) =>
      if n == 0 then Read(0)
      else if amount + n >= flowSize then Read(amount + n)
      else Reading(amount + n)
  }

  function ReaderRun(rd: Reader, flowSize: int, results: seq<IoResult>): Reader
    decreases |results|
  {
    if results == [] || rd.Read? then rd
    else ReaderRun(ReaderStep(rd.amount, flowSize, results[0]), flowSize, results[1..])
  }

  /** read_responce. */
  method ReadResponce(flowSize: int, results: seq<IoResult>) returns (out: Outcome)
    ensures out == match ReaderRun(Reading(0), flowSize, results)
                   case Read(v) => Returned(v)
                   case Reading(_) => Running
  {
    var amount := 0;
    var i := 0;
    while i < |results|
      invariant 0 <= i <= |results|
      invariant ReaderRun(Reading(0), flowSize, results) == ReaderRun(Reading(amount), flowSize, results[i..])
    {
      var r := results[i];
      assert results[i..][1..] == results[i + 1..];
      i := i + 1;
      match r {
        case Failed => return Returned(-1);
        case Retry =>
        case Count(n) =>
          if n == 0 {
            return Returned(0);
          }
          amount := amount + n;
      }
      if amount >= flowSize {
        return Returned(amount);
      }
    }
    out := Running;
  }

  // Each end alone.

  /** A writer that returns has written everything, or met a hard error; until then nothing is lost. */
  lemma {:induction false} WriterReturnsFlowSize(left: int, amount: nat, results: seq<IoResult>)
    requires left > 0 && WriteResultsOk(Writing(left, amount), results)
    ensures var w := WriterRun(Writing(left, amount), results);
      if w.Written? then w.value == -1 || w.value == amount + left
      else w.amount + w.left == amount + left && w.left > 0
    ensures WriterRun(Writing(left, amount), results) == Written(-1) ==>
              exists i :: 0 <= i < |results| && results[i] == Failed
    decreases |results|
  {
    if results != [] {
      var w := WriterStep(Writing(left, amount), results[0]);
      if results[0] != Failed && w.Writing? {
        WriterReturnsFlowSize(w.left, w.amount, results[1..]);
        if WriterRun(w, results[1..]) == Written(-1) {
          var i :| 0 <= i < |results[1..]| && results[1..][i] == Failed;
          assert results[i + 1] == Failed;
        }
      }
    }
  }

  lemma {:induction false} WriterRunAppend(w: Writer, a: seq<IoResult>, b: seq<IoResult>)
    ensures WriterRun(w, a + b) == WriterRun(WriterRun(w, a), b)
    decreases |a|
  {
    if a == [] {
      assert a + b == b;
    } else if w.Writing? {
      assert (a + b)[1..] == a[1..] + b;
      WriterRunAppend(WriterStep(w, a[0]), a[1..], b);
    }
  }

  lemma {:induction false} WriterGoesOn(flowSize: int, results: seq<IoResult>)
    requires Total(results) < flowSize && Failed !in results
    ensures WriterRun(WriterStart(flowSize), results) == Writing(flowSize - Total(results), Total(results))
  {
    if results != [] {
      var before, last := results[..|results| - 1], results[|results| - 1];
      WriterGoesOn(flowSize, before);
      WriterRunAppend(WriterStart(flowSize), before, [last]);
      assert results == before + [last];
    }
  }

  /** The writer returns at the first call that fails hard, with -1, or that completes the flow size,
      with that; whatever the calls after it would return. Before, it goes on. */
  lemma WriterStops(flowSize: int, results: seq<IoResult>, i: nat)
    requires i < |results| && Total(results[..i]) < flowSize && Failed !in results[..i]
    ensures results[i] == Failed ==> WriterRun(WriterStart(flowSize), results) == Written(-1)
    ensures results[i] != Failed && Total(results[..i + 1]) >= flowSize ==>
              WriterRun(WriterStart(flowSize), results) == Written(Total(results[..i + 1]))
    ensures results[i] != Failed && Total(results[..i + 1]) < flowSize ==>
              WriterRun(WriterStart(flowSize), results[..i + 1]).Writing?
  {
    var before, rest, w := results[..i], results[i..], WriterStart(flowSize);
    assert results == before + rest && results[..i + 1] == before + [rest[0]];
    assert results[..i + 1][..i] == before;
    WriterGoesOn(flowSize, before);
    WriterRunAppend(w, before, rest);
    WriterRunAppend(w, before, [rest[0]]);
    var now := Writing(flowSize - Total(before), Total(before));
    FirstTurn(now, rest);
    FirstTurn(now, [rest[0]]);
    hide WriterRun, WriterStart;
  }

  lemma FirstTurn(w: Writer, results: seq<IoResult>)
    requires w.Writing? && results != []
    ensures WriterRun(w, results) == WriterRun(WriterStep(w, results[0]), results[1..])
    ensures WriterStep(w, results[0]).Written? || |results| == 1 ==> WriterRun(w, results) == WriterStep(w, results[0])
  {
  }

  lemma {:induction false} ReaderRunAppend(rd: Reader, flowSize: int, a: seq<IoResult>, b: seq<IoResult>)
    ensures ReaderRun(rd, flowSize, a + b) == ReaderRun(ReaderRun(rd, flowSize, a), flowSize, b)
    decreases |a|
  {
    if a == [] {
      assert a + b == b;
    } else if rd.Reading? {
      assert (a + b)[1..] == a[1..] + b;
      ReaderRunAppend(ReaderStep(rd.amount, flowSize, a[0]), flowSize, a[1..], b);
    }
  }

  /** Calls after which the reader is still reading. */
  predicate ReadsOn(flowSize: int, results: seq<IoResult>) {
    Failed !in results && Count(0) !in results && (results != [] ==> Total(results) < flowSize)
  }

  lemma {:induction false} ReaderGoesOn(flowSize: int, results: seq<IoResult>)
    requires ReadsOn(flowSize, results)
    ensures ReaderRun(Reading(0), flowSize, results) == Reading(Total(results))
  {
    if results != [] {
      var before, last := results[..|results| - 1], results[|results| - 1];
      ReaderGoesOn(flowSize, before);
      ReaderRunAppend(Reading(0), flowSize, before, [last]);
      assert results == before + [last];
      assert ReaderRun(Reading(Total(before)), flowSize, [last]) == ReaderStep(Total(before), flowSize, last);
    }
  }

  /** The reader returns at the first call that fails hard, with -1, that finds the connection closed,
      with 0, or after which the flow size is reached, with the bytes read; whatever the calls after
      it would return. Before, it goes on. */
  lemma ReaderStops(flowSize: int, results: seq<IoResult>, i: nat)
    requires i < |results| && ReadsOn(flowSize, results[..i])
    ensures var r := results[i]; var rd := ReaderRun(Reading(0), flowSize, results);
      && (r == Failed ==> rd == Read(-1))
      && (r == Count(0) ==> rd == Read(0))
      && (r != Failed && r != Count(0) && Total(results[..i + 1]) >= flowSize ==> rd == Read(Total(results[..i + 1])))
      && (r != Failed && r != Count(0) && Total(results[..i + 1]) < flowSize ==> ReadsOn(flowSize, results[..i + 1]))
  {
    var before, rest := results[..i], results[i..];
    assert results == before + rest && results[..i + 1] == before + [rest[0]];
    assert results[..i + 1][..i] == before;
    ReaderGoesOn(flowSize, before);
    ReaderRunAppend(Reading(0), flowSize, before, rest);
  }

  // Both ends over a channel.

  /** inFlight: bytes written and not yet read; closed: the writer has closed the connection. */
  datatype Link = Link(flowSize: int, writer: Writer, inFlight: nat, closed: bool, reader: Reader)

  datatype Action = WriteSome(n: nat) | WriteRetry | Close | ReadSome(n: nat) | ReadRetry | ReadEnd

  function LinkStart(flowSize: int): Link {
    Link(flowSize, WriterStart(flowSize), 0, false, Reading(0))
  }

  /** A lossless first-in first-out byte channel: partial writes and reads of any size, retries at
      any time, no hard error. The writer closes only after it has returned, and the reader sees the
      end only when everything in flight is read. */
  predicate CanDo(s: Link, a: Action) {
    match a
    case WriteSome(n) => s.writer.Writing? && n <= Chunk(s.writer)
    case WriteRetry => s.writer.Writing?
    case Close => s.writer.Written?
    case ReadSome(n) => s.reader.Reading? && 1 <= n <= MAX_READ_BUFF && n <= s.inFlight
    case ReadRetry => s.reader.Reading?
    case ReadEnd => s.reader.Reading? && s.closed && s.inFlight == 0
  }

  function Do(s: Link, a: Action): Link
    requires CanDo(s, a)
  {
    match a
    case WriteSome(n) => s.(writer := WriterStep(s.writer, Count(n)), inFlight := s.inFlight + n)
    case WriteRetry => s.(writer := WriterStep(s.writer, Retry))
    case Close => s.(closed := true)
    case ReadSome(n) => s.(reader := ReaderStep(s.reader.amount, s.flowSize, Count(n)), inFlight := s.inFlight - n)
    case ReadRetry => s.(reader := ReaderStep(s.reader.amount, s.flowSize, Retry))
    case ReadEnd => s.(reader := ReaderStep(s.reader.amount, s.flowSize, Count(0)))
  }

  predicate CanDoAll(s: Link, acts: seq<Action>)
    decreases |acts|
  {
    acts != [] ==> CanDo(s, acts[0]) && CanDoAll(Do(s, acts[0]), acts[1..])
  }

  function DoAll(s: Link, acts: seq<Action>): Link
    requires CanDoAll(s, acts)
    decreases |acts|
  {
    if acts == [] then s else DoAll(Do(s, acts[0]), acts[1..])
  }

  /** Every byte of the flow is unwritten, in flight or read. */
  predicate LinkOk(s: Link) {
    var size := if s.flowSize > 0 then s.flowSize else 0;
    var written := if s.writer.Writing? then s.writer.amount else s.writer.value;
    var read := if s.reader.Reading? then s.reader.amount else s.reader.value;
    && written == s.inFlight + read
    && (s.writer.Writing? ==> s.writer.left > 0 && s.writer.amount + s.writer.left == size)
    && (s.writer.Written? ==> written == size)
    && (s.reader.Reading? ==> read == 0 || read < size)
    && (s.reader.Read? ==> read == size)
    && (s.closed ==> s.writer.Written?)
  }

  lemma LinkStep(s: Link, a: Action)
    requires LinkOk(s) && CanDo(s, a)
    ensures LinkOk(Do(s, a)) && Do(s, a).flowSize == s.flowSize
  {
  }

  lemma {:induction false} LinkAlways(s: Link, acts: seq<Action>)
    requires LinkOk(s) && CanDoAll(s, acts)
    ensures LinkOk(DoAll(s, acts)) && DoAll(s, acts).flowSize == s.flowSize
    decreases |acts|
  {
    if acts != [] {
      LinkStep(s, acts[0]);
      LinkAlways(Do(s, acts[0]), acts[1..]);
    }
  }

  /** In every interleaving, a writer that returns has written exactly the flow size, and a reader that
      returns has read exactly the flow size (nothing for a size not above 0). The writer's close is
      never taken for a short response. */
  lemma TransferIsExact(flowSize: int, acts: seq<Action>)
    requires CanDoAll(LinkStart(flowSize), acts)
    ensures var s := DoAll(LinkStart(flowSize), acts); var size := if flowSize > 0 then flowSize else 0;
      && (s.writer.Written? ==> s.writer.value == size)
      && (s.reader.Read? ==> s.reader.value == size && s.inFlight == 0 && s.writer == Written(size))
      && (flowSize > 0 && s.reader.Reading? ==> !CanDo(s, ReadEnd))
  {
    LinkAlways(LinkStart(flowSize), acts);
  }

  /** The transfer has no deadlock: until the reader has returned, it can read or the writer can write,
      at least one byte; a writer that has returned can close. */
  lemma TransferCanGoOn(flowSize: int, acts: seq<Action>)
    requires flowSize > 0 && CanDoAll(LinkStart(flowSize), acts)
    ensures var s := DoAll(LinkStart(flowSize), acts);
      && (s.reader.Reading? ==> CanDo(s, ReadSome(1)) || CanDo(s, WriteSome(1)))
      && (s.reader.Reading? && s.inFlight > 0 ==>
            CanDo(s, ReadSome(if s.inFlight <= 65536 then s.inFlight else 65536)))
      && (s.writer.Writing? ==>
            s.writer.left > 0 && CanDo(s, WriteSome(if s.writer.left <= 65536 then s.writer.left else 65536)))
      && (s.writer.Written? ==> CanDo(s, Close))
  {
    LinkAlways(LinkStart(flowSize), acts);
  }
}
