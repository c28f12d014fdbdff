/** XLogUtils.java: trace naming conventions and the ways the detector cuts
    an event log into pieces. A log is a sequence of traces, a trace a named
    sequence of events; a timestamp is the event's time in milliseconds. */
module XLogUtils {
  import opened Wrappers
  import opened JavaStrings

  datatype Event = Event(activity: string, timestamp: int)

  /** A trace's concept:name attribute is absent (null) on a trace built
      without attributes. */
  datatype Trace = Trace(name: Option<string>, events: seq<Event>)

  type Log = seq<Trace>

  /** What the chunking operations return: a list of logs, the list holding a
      single null log, or the exception they throw. */
  datatype ChunkError = IllegalArgument | DivisionByZero
  datatype Chunking = Chunks(chunks: seq<Log>) | SingleNullChunk | Failed(error: ChunkError)

  function Max(a: int, b: int): int { if a < b then b else a }
  function Min(a: int, b: int): int { if a < b then a else b }
  function Abs(a: int): nat { if a < 0 then -a else a }

  /** The traces of a list of logs, one log after the other. */
  function Concat(chunks: seq<Log>): Log
  {
    if chunks == [] then [] else Concat(chunks[..|chunks| - 1]) + chunks[|chunks| - 1]
  }

  lemma ConcatSnoc(chunks: seq<Log>, chunk: Log)
    ensures Concat(chunks + [chunk]) == Concat(chunks) + chunk
  {
    assert (chunks + [chunk])[..|chunks|] == chunks;
  }

  /** The traces that hold at least one event, in log order. */
  function NonEmptyTraces(log: Log): (r: Log)
    ensures forall t :: t in r ==> |t.events| > 0
  {
    if log == [] then []
    else NonEmptyTraces(log[..|log| - 1])
         + (if |log[|log| - 1].events| > 0 then [log[|log| - 1]] else [])
  }

  /** The start time of a trace: the timestamp of its first event. */
  function StartTime(t: Trace): int
    requires |t.events| > 0
  {
    t.events[0].timestamp
  }

  /** getTraceName: the concept:name attribute, null when absent. */
  function TraceName(t: Trace): (r: Option<string>)
    ensures r == t.name
  {
    t.name
  }

  /** What Java's string concatenation prints for a possibly null name. */
  function NameText(n: Option<string>): string
  {
    match n
    case Some(s) => s
    case None => "null"
  }

  /** getTraceType: the part of the trace name before its first underscore,
      or "other" when the name has none. */
  function TraceType(name: string): (r: string)
    ensures '_' !in name ==> r == "other"
    ensures '_' in name ==> '_' !in r && |r| < |name| && name[..|r| + 1] == r + "_"
  {
    var k := IndexOf(name, '_');
    if k < 0 then "other" else name[..k]
  }

  /** getChangeString: the name of the last trace of chunk i1, " - ", and the
      name of the first trace of chunk i2. None stands for the
      IndexOutOfBoundsException thrown when a chunk or a trace is missing. */
  function ChangeString(chunks: seq<Log>, i1: int, i2: int): (r: Option<string>)
    ensures r.Some? <==> 0 <= i1 < |chunks| && 0 <= i2 < |chunks|
                         && |chunks[i1]| > 0 && |chunks[i2]| > 0
    ensures r.Some? ==> r.value == NameText(chunks[i1][|chunks[i1]| - 1].name) + " - "
                                   + NameText(chunks[i2][0].name)
  {
    if 0 <= i1 < |chunks| && 0 <= i2 < |chunks| && |chunks[i1]| > 0 && |chunks[i2]| > 0 then
      Some(NameText(TraceName(chunks[i1][|chunks[i1]| - 1])) + " - " + NameText(TraceName(chunks[i2][0])))
    else None
  }

  lemma MulZero(k: int, m: int)
    requires m > 0 && -m < k * m < m
    ensures k == 0
  {
  }

  /** Division with remainder has one answer. */
  lemma ModUnique(a: int, q: int, r: int, m: int)
    requires m > 0 && 0 <= r < m && a == q * m + r
    ensures a % m == r && a / m == q
  {
    var q', r' := a / m, a % m;
    assert (q - q') * m == r' - r;
    MulZero(q - q', m);
  }

  /** How i % m relates to (i - 1) % m. */
  lemma ModStep(i: int, m: int)
    requires i >= 1 && m > 0
    ensures i % m == 0 ==> (i - 1) % m == m - 1
    ensures i % m != 0 ==> (i - 1) % m + 1 == i % m
  {
    var q, r := (i - 1) / m, (i - 1) % m;
    if r == m - 1 {
      ModUnique(i, q + 1, 0, m);
    } else {
      ModUnique(i, q, r + 1, m);
    }
  }

  /** What createChunksByCount's loop keeps true after reading `prefix`:
      closed blocks of m traces, then the open block (absent before the
      first trace) holding the rest. */
  ghost predicate CountState(prefix: Log, m: nat, result: seq<Log>, current: Option<Log>)
  {
    && m > 0
    && (|prefix| == 0 <==> current.None?)
    && (|prefix| == 0 ==> result == [])
    && (|prefix| > 0 ==> Concat(result) + current.value == prefix
                         && |current.value| == (|prefix| - 1) % m + 1)
    && (forall c :: 0 <= c < |result| ==> |result[c]| == m)
  }

  lemma CountStep(prefix: Log, m: nat, result: seq<Log>, current: Option<Log>, t: Trace)
    requires CountState(prefix, m, result, current)
    ensures |prefix| % m == 0 ==>
              CountState(prefix + [t], m, if current.Some? then result + [current.value] else result, Some([t]))
    ensures |prefix| % m != 0 ==>
              CountState(prefix + [t], m, result, Some(current.value + [t]))
  {
    if |prefix| % m == 0 {
      CountClose(prefix, m, result, current, t);
    } else {
      CountExtend(prefix, m, result, current, t);
    }
  }

  /** A trace at a multiple of m closes the open block and opens a new one. */
  lemma CountClose(prefix: Log, m: nat, result: seq<Log>, current: Option<Log>, t: Trace)
    requires CountState(prefix, m, result, current) && |prefix| % m == 0
    ensures CountState(prefix + [t], m, if current.Some? then result + [current.value] else result, Some([t]))
  {
    var i := |prefix|;
    var result' := if current.Some? then result + [current.value] else result;
    if i > 0 {
      ModStep(i, m);
      assert |current.value| == m;
      ConcatSnoc(result, current.value);
      assert Concat(result') == prefix;
      assert forall c :: 0 <= c < |result'| ==> |result'[c]| == m by {
        forall c | 0 <= c < |result'| ensures |result'[c]| == m {
          if c < |result| {
            assert result'[c] == result[c];
          }
        }
      }
    } else {
      assert result' == [];
    }
    assert (|prefix + [t]| - 1) % m == 0;
    assert Concat(result') + [t] == prefix + [t];
  }

  /** Any other trace joins the open block. */
  lemma CountExtend(prefix: Log, m: nat, result: seq<Log>, current: Option<Log>, t: Trace)
    requires CountState(prefix, m, result, current) && |prefix| % m != 0
    ensures CountState(prefix + [t], m, result, Some(current.value + [t]))
  {
    ZeroRemainder(m);
    assert |prefix| > 0;
    ExtendLength(prefix, m, current.value, t);
    ExtendConcat(Concat(result), current.value, t);
    CountStateOpen(prefix + [t], m, result, current.value + [t]);
  }

  lemma ZeroRemainder(m: int)
    requires m > 0
    ensures 0 % m == 0
  {
  }

  /** A block that is not full grows by one position. */
  lemma ExtendLength(prefix: Log, m: int, current: Log, t: Trace)
    requires |prefix| >= 1 && m > 0 && |prefix| % m != 0 && |current| == (|prefix| - 1) % m + 1
    ensures |current + [t]| == (|prefix + [t]| - 1) % m + 1
  {
    ModStep(|prefix|, m);
  }

  lemma ExtendConcat(done: Log, current: Log, t: Trace)
    ensures done + (current + [t]) == (done + current) + [t]
  {
  }

  /** A non-empty prefix in a block of the right length completes CountState. */
  lemma CountStateOpen(prefix: Log, m: nat, result: seq<Log>, current: Log)
    requires m > 0 && |prefix| > 0
    requires Concat(result) + current == prefix && |current| == (|prefix| - 1) % m + 1
    requires forall c :: 0 <= c < |result| ==> |result[c]| == m
    ensures CountState(prefix, m, result, Some(current))
  {
  }

  /** createChunksByCount: consecutive blocks of |n| traces, only the last one
      possibly shorter. Fails when n exceeds the log size; for n == 0 the
      remainder i % 0 throws; an empty log with n <= 0 gives a list holding
      one null log. */
  method ChunksByCount(log: Log, n: int) returns (r: Chunking)
    ensures n > |log| ==> r == Failed(IllegalArgument)
    ensures n <= |log| && |log| == 0 ==> r == SingleNullChunk
    ensures n == 0 && |log| > 0 ==> r == Failed(DivisionByZero)
    ensures n != 0 && n <= |log| && |log| > 0 ==>
              && r.Chunks?
              && Concat(r.chunks) == log
              && |r.chunks| > 0
              && (forall c :: 0 <= c < |r.chunks| - 1 ==> |r.chunks[c]| == Abs(n))
              && 1 <= |r.chunks[|r.chunks| - 1]| <= Abs(n)
  {
    if n > |log| {
      return Failed(IllegalArgument);
    }
    if |log| == 0 {
      return SingleNullChunk;
    }
    if n == 0 {
      return Failed(DivisionByZero);
    }
    // Java's i % n, for i >= 0 and n != 0, is i % |n|.
    var m := Abs(n);
    var result: seq<Log> := [];
    var current: Option<Log> := None;
    for i := 0 to |log|
      invariant CountState(log[..i], m, result, current)
    {
      assert log[..i + 1] == log[..i] + [log[i]];
      CountStep(log[..i], m, result, current, log[i]);
      if i % m == 0 {
        if current.Some? {
          result := result + [current.value];
        }
        current := Some([]);
      }
      current := Some(current.value + [log[i]]);
    }
    assert log[..|log|] == log;
    ConcatSnoc(result, current.value);
    result := result + [current.value];
    return Chunks(result);
  }

  lemma DivBound(size: int, k: int)
    requires 0 < k <= size
    ensures 1 <= size / k && k * (size / k) <= size && size - k * (size / k) < k
  {
  }

  lemma MulMono(a: int, b: int, c: int)
    requires 0 <= a <= b && c >= 0
    ensures a * c <= b * c
  {
  }

  /** createChunksByNumber: exactly k chunks of |log| / k traces each; the
      traces after the k-th chunk are dropped. Fails when k exceeds the log
      size, divides by zero for k == 0, and gives no chunk for k < 0. */
  method ChunksByNumber(log: Log, k: int) returns (r: Chunking)
    ensures k > |log| ==> r == Failed(IllegalArgument)
    ensures k == 0 ==> r == Failed(DivisionByZero)
    ensures k < 0 ==> r == Chunks([])
    ensures 0 < k <= |log| ==>
              && r.Chunks?
              && |r.chunks| == k
              && (forall c :: 0 <= c < k ==> |r.chunks[c]| == |log| / k)
              && k * (|log| / k) <= |log|
              && Concat(r.chunks) == log[..k * (|log| / k)]
              && |log| - k * (|log| / k) < k
  {
    if k > |log| {
      return Failed(IllegalArgument);
    }
    if k == 0 {
      return Failed(DivisionByZero);
    }
    if k < 0 {
      return Chunks([]);
    }
    var chunkSize := |log| / k;
    DivBound(|log|, k);
    var result: seq<Log> := [];
    for i := 0 to k
      invariant |result| == i
      invariant forall c :: 0 <= c < i ==> |result[c]| == chunkSize
      invariant i * chunkSize <= |log|
      invariant Concat(result) == log[..i * chunkSize]
    {
      MulMono(i + 1, k, chunkSize);
      var chunk: Log := [];
      var j := i * chunkSize;
      while j < Min((i + 1) * chunkSize, |log|)
        invariant i * chunkSize <= j <= (i + 1) * chunkSize
        invariant chunk == log[i * chunkSize..j]
      {
        chunk := chunk + [log[j]];
        j := j + 1;
      }
      assert log[..(i + 1) * chunkSize] == log[..i * chunkSize] + chunk;
      result := result + [chunk];
      assert result[..|result| - 1] == result[..i];
    }
    return Chunks(result);
  }

  /** A chunk of traces that all hold events. */
  predicate Proper(chunk: Log) {
    |chunk| > 0 && forall p :: 0 <= p < |chunk| ==> |chunk[p].events| > 0
  }

  /** Every trace of the chunk starts at most `duration` after its first. */
  predicate WithinSpan(chunk: Log, duration: int)
    requires Proper(chunk)
  {
    forall p :: 0 < p < |chunk| ==> StartTime(chunk[p]) - StartTime(chunk[0]) <= duration
  }

  /** Each chunk is proper and within the span, and each chunk's first trace
      starts more than `duration` after the previous chunk's first trace. */
  predicate TimeChunked(chunks: seq<Log>, duration: int) {
    && (forall c :: 0 <= c < |chunks| ==> Proper(chunks[c]) && WithinSpan(chunks[c], duration))
    && (forall c, d :: 0 <= c < |chunks| && 0 <= d < |chunks| && d == c + 1 ==>
          StartTime(chunks[d][0]) - StartTime(chunks[c][0]) > duration)
  }

  lemma AppendChunk(chunks: seq<Log>, chunk: Log, duration: int)
    requires TimeChunked(chunks, duration) && Proper(chunk) && WithinSpan(chunk, duration)
    requires chunks != [] ==> StartTime(chunk[0]) - StartTime(chunks[|chunks| - 1][0]) > duration
    ensures TimeChunked(chunks + [chunk], duration)
  {
  }

  lemma ExtendLast(chunks: seq<Log>, t: Trace, duration: int)
    requires TimeChunked(chunks, duration) && chunks != [] && |t.events| > 0
    requires StartTime(t) - StartTime(chunks[|chunks| - 1][0]) <= duration
    ensures TimeChunked(chunks[..|chunks| - 1] + [chunks[|chunks| - 1] + [t]], duration)
  {
    var n := |chunks| - 1;
    var last := chunks[n] + [t];
    assert Proper(last);
    assert WithinSpan(last, duration);
    var r := chunks[..n] + [last];
    forall c, d | 0 <= c < d < |r| && d == c + 1
      ensures StartTime(r[d][0]) - StartTime(r[c][0]) > duration
    {
      assert r[d][0] == chunks[d][0] && r[c][0] == chunks[c][0];
    }
  }

  /** The chunks built so far, with the open chunk when it holds a trace. */
  function WithOpen(result: seq<Log>, current: Log): seq<Log>
  {
    if |current| > 0 then result + [current] else result
  }

  /** What createChunksByTimeSpan's loop keeps true after reading `prefix`:
      the closed chunks and the open one hold the non-empty traces read so
      far, and the recorded start date is that of the open chunk. */
  ghost predicate SpanState(prefix: Log, startDate: Option<int>, current: Log,
                            result: seq<Log>, duration: int)
  {
    && Concat(result) + current == NonEmptyTraces(prefix)
    && (startDate.None? ==> result == [] && current == [])
    && (startDate.Some? ==> |current| > 0 && |current[0].events| > 0
                            && startDate.value == StartTime(current[0]))
    && TimeChunked(WithOpen(result, current), duration)
  }

  /** One iteration of createChunksByTimeSpan's loop, for a trace with events. */
  function SpanNext(startDate: Option<int>, current: Log, result: seq<Log>,
                    trace: Trace, duration: int): (Option<int>, Log, seq<Log>)
    requires |trace.events| > 0
  {
    var curDate := trace.events[0].timestamp;
    var start := if startDate.None? then curDate else startDate.value;
    if curDate - start > duration then
      (Some(curDate), [trace], if |current| > 0 then result + [current] else result)
    else (Some(start), current + [trace], result)
  }

  /** A trace without events changes nothing but the prefix read. */
  lemma SpanSkip(prefix: Log, startDate: Option<int>, current: Log, result: seq<Log>,
                 trace: Trace, duration: int)
    requires SpanState(prefix, startDate, current, result, duration) && |trace.events| == 0
    ensures SpanState(prefix + [trace], startDate, current, result, duration)
  {
    assert (prefix + [trace])[..|prefix|] == prefix;
  }

  /** A trace with events is added by SpanNext. */
  lemma SpanStep(prefix: Log, startDate: Option<int>, current: Log, result: seq<Log>,
                 trace: Trace, duration: int)
    requires SpanState(prefix, startDate, current, result, duration) && |trace.events| > 0
    ensures SpanState(prefix + [trace], SpanNext(startDate, current, result, trace, duration).0,
                      SpanNext(startDate, current, result, trace, duration).1,
                      SpanNext(startDate, current, result, trace, duration).2, duration)
  {
    var curDate := trace.events[0].timestamp;
    var start := if startDate.None? then curDate else startDate.value;
    if curDate - start > duration {
      assert SpanNext(startDate, current, result, trace, duration) == (Some(curDate), [trace], WithOpen(result, current));
      SpanStepOpen(prefix, startDate, current, result, trace, duration);
    } else {
      assert SpanNext(startDate, current, result, trace, duration) == (Some(start), current + [trace], result);
      SpanStepExtend(prefix, startDate, current, result, trace, duration);
    }
  }

  lemma SpanStepOpen(prefix: Log, startDate: Option<int>, current: Log, result: seq<Log>,
                     trace: Trace, duration: int)
    requires SpanState(prefix, startDate, current, result, duration) && |trace.events| > 0
    requires trace.events[0].timestamp - (if startDate.None? then trace.events[0].timestamp else startDate.value) > duration
    ensures SpanState(prefix + [trace], Some(trace.events[0].timestamp), [trace], WithOpen(result, current), duration)
  {
    assert (prefix + [trace])[..|prefix|] == prefix;
    assert Proper([trace]) && WithinSpan([trace], duration);
    if |current| > 0 {
      var r := result + [current];
      assert r[..|r| - 1] == result;
      AppendChunk(r, [trace], duration);
    } else {
      AppendChunk(result, [trace], duration);
    }
  }

  lemma SpanStepExtend(prefix: Log, startDate: Option<int>, current: Log, result: seq<Log>,
                       trace: Trace, duration: int)
    requires SpanState(prefix, startDate, current, result, duration) && |trace.events| > 0
    requires var start := if startDate.None? then trace.events[0].timestamp else startDate.value;
      trace.events[0].timestamp - start <= duration
    ensures SpanState(prefix + [trace], Some(if startDate.None? then trace.events[0].timestamp else startDate.value),
                      current + [trace], result, duration)
  {
    if |current| == 0 {
      SpanStepFirst(prefix, startDate, current, result, trace, duration);
      assert current + [trace] == [trace];
    } else {
      SpanStepGrow(prefix, startDate, current, result, trace, duration);
    }
  }

  /** The first trace of the log with events opens the first chunk. */
  lemma SpanStepFirst(prefix: Log, startDate: Option<int>, current: Log, result: seq<Log>,
                      trace: Trace, duration: int)
    requires SpanState(prefix, startDate, current, result, duration) && |trace.events| > 0
    requires |current| == 0
    ensures SpanState(prefix + [trace], Some(trace.events[0].timestamp), [trace], result, duration)
  {
    assert (prefix + [trace])[..|prefix|] == prefix;
    assert Proper([trace]) && WithinSpan([trace], duration);
    AppendChunk(result, [trace], duration);
  }

  /** A trace within the span of the open chunk joins it. */
  lemma SpanStepGrow(prefix: Log, startDate: Option<int>, current: Log, result: seq<Log>,
                     trace: Trace, duration: int)
    requires SpanState(prefix, startDate, current, result, duration) && |trace.events| > 0
    requires |current| > 0 && startDate.Some? && trace.events[0].timestamp - startDate.value <= duration
    ensures SpanState(prefix + [trace], startDate, current + [trace], result, duration)
  {
    assert (prefix + [trace])[..|prefix|] == prefix;
    ExtendLast(result + [current], trace, duration);
    assert (result + [current])[..|result|] == result;
    var r := result + [current + [trace]];
    assert r[..|r| - 1] == result;
  }

  lemma SpanFinish(log: Log, startDate: Option<int>, current: Log, result: seq<Log>, duration: int)
    requires SpanState(log, startDate, current, result, duration)
    ensures Concat(WithOpen(result, current)) == NonEmptyTraces(log)
    ensures TimeChunked(WithOpen(result, current), duration)
  {
    if |current| > 0 {
      ConcatSnoc(result, current);
    }
  }

  /** The body of createChunksByTimeSpan's loop for a trace with events. */
  method SpanAdvance(startDate: Option<int>, current: Log, result: seq<Log>, trace: Trace, duration: int)
    returns (startDate': Option<int>, current': Log, result': seq<Log>)
    requires |trace.events| > 0
    ensures (startDate', current', result') == SpanNext(startDate, current, result, trace, duration)
  {
    startDate', current', result' := startDate, current, result;
    var curDate := trace.events[0].timestamp;
    if startDate'.None? {
      startDate' := Some(curDate);
    }
    if curDate - startDate'.value > duration {
      if |current'| > 0 {
        result' := result' + [current'];
      }
      startDate' := Some(curDate);
      current' := [];
    }
    current' := current' + [trace];
    assert [] + [trace] == [trace];
  }

  /** createChunksByTimeSpan: traces without events are skipped; a new chunk
      starts at a trace whose start time is more than `duration` after the
      start time of the first trace of the current chunk; no chunk is empty
      and the chunks hold the non-empty traces in log order. */
  method ChunksByTimeSpan(log: Log, duration: int) returns (chunks: seq<Log>)
    ensures Concat(chunks) == NonEmptyTraces(log)
    ensures TimeChunked(chunks, duration)
  {
    var startDate: Option<int> := None;
    var current: Log := [];
    var result: seq<Log> := [];
    for i := 0 to |log|
      invariant SpanState(log[..i], startDate, current, result, duration)
    {
      var trace := log[i];
      assert log[..i + 1] == log[..i] + [trace];
      // traces without events are skipped
      if |trace.events| > 0 {
        SpanStep(log[..i], startDate, current, result, trace, duration);
        startDate, current, result := SpanAdvance(startDate, current, result, trace, duration);
      } else {
        SpanSkip(log[..i], startDate, current, result, trace, duration);
      }
    }
    SpanFinish(log[..|log|], startDate, current, result, duration);
    assert log[..|log|] == log;
    ghost var closed := WithOpen(result, current);
    if |current| > 0 {
      result := result + [current];
    }
    assert result == closed;
    chunks := result;
  }

  /** subset: the traces from max(0, start) up to min(size, end), empty when
      that range is empty. */
  method Subset(log: Log, startIndex: int, endIndex: int) returns (r: Log)
    ensures Max(0, startIndex) < Min(|log|, endIndex) ==>
              r == log[Max(0, startIndex)..Min(|log|, endIndex)]
    ensures Max(0, startIndex) >= Min(|log|, endIndex) ==> r == []
  {
    r := [];
    var i := Max(0, startIndex);
    while i < Min(|log|, endIndex)
      invariant Max(0, startIndex) <= i
      invariant i <= Min(|log|, endIndex) ==> r == log[Max(0, startIndex)..i]
      invariant i > Min(|log|, endIndex) ==> r == [] && i == Max(0, startIndex)
    {
      r := r + [log[i]];
      i := i + 1;
    }
  }

  /** filter: a copy of the log in which every trace is rebuilt as a fresh
      trace (without attributes, hence without a name) holding the same
      events in the same order. */
  method Filter(log: Log) returns (r: Log)
    ensures |r| == |log|
    ensures forall i :: 0 <= i < |log| ==> r[i].events == log[i].events && TraceName(r[i]).None?
  {
    r := [];
    for i := 0 to |log|
      invariant |r| == i
      invariant forall k :: 0 <= k < i ==> r[k].events == log[k].events && r[k].name.None?
    {
      var trace := log[i];
      var events: seq<Event> := [];
      for j := 0 to |trace.events|
        invariant events == trace.events[..j]
      {
        events := events + [trace.events[j]];
      }
      assert events == trace.events;
      r := r + [Trace(None, events)];
    }
  }
}
