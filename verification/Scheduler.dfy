/** The staging protocol between the caller, the transfer thread and the worker threads:
  parpar/gf16/controller_cpu.cpp:237-331, 387-408 and 463-624.

  A batch of inputs is collected in a staging area, handed to the transfer thread, cut into one
  request per tile of the output, and worked off by the threads that own the tiles. Every step of
  every thread is an action of one state machine; a run is any sequence of enabled actions. */
module Scheduler {
  import opened Arithmetic
  import opened Options

  /** One input slice with its coefficients for all outputs. */
  datatype Input<C, D> = Input(coeff: C, data: D)

  /** The fixed part: how many areas, inputs per area, tiles and threads there are, which thread owns
      a tile, and how an input is multiplied into a tile. */
  datatype Config<!C, !D, !V> = Config(areas: nat, batchSize: nat, tiles: nat, threads: nat, owner: nat -> nat,
                                       mul: (nat, C, D) -> V, add: (V, V) -> V, zero: V)
  {
    ghost predicate Valid() {
      && areas > 0 && batchSize > 0 && tiles > 0
      && forall t :: 0 <= t < tiles ==> owner(t) < threads
    }
  }

  /** A message to the transfer thread: prepare an input, and start the batch if `submit` is set. A
      flush carries no input. `batch` numbers the batches in the order the caller fills them. */
  datatype Message<C, D> = Message(area: nat, batch: nat, index: nat, input: Option<Input<C, D>>, submit: bool)

  /** A request to a worker. */
  datatype Request = Request(area: nat, batch: nat, tile: nat, inputs: nat, add: bool)

  /** The requests of a batch that the transfer thread still has to send: those from tile `next` on. */
  datatype Job = Job(area: nat, batch: nat, inputs: nat, add: bool, next: nat)

  /** A worker is idle, or has computed a request and must count it off, or must release an area. */
  datatype Worker = Idle | Computed(request: Request) | Releasing(area: nat)

  datatype State<C, D, V> = State(
    // the caller
    current: nat, staged: seq<Input<C, D>>,
    // the staging areas
    active: seq<bool>, procRefs: seq<int>, coeffs: seq<seq<Option<C>>>, src: seq<seq<Option<D>>>,
    // the transfer thread
    queue: seq<Message<C, D>>, job: Option<Job>, processingAdd: bool,
    // the workers
    requests: seq<seq<Request>>, workers: seq<Worker>,
    // the output memory, tile by tile
    output: seq<V>,
    // history: batches handed over and their areas, batches started, inputs of the next one prepared,
    // batches computed and counted off for each tile, areas released
    batches: seq<seq<Input<C, D>>>, areaOf: seq<nat>, started: nat, prepared: nat,
    done: seq<nat>, finished: seq<nat>, released: seq<bool>)

  // ---------------------------------------------------------------------- what the workers compute

  /** Add up the products of inputs with one tile. */
  function Accumulate<C, D, V>(c: Config<C, D, V>, t: nat, base: V, inputs: seq<Input<C, D>>): V {
    if inputs == [] then base
    else
      var k := |inputs| - 1;
      c.add(Accumulate(c, t, base, inputs[..k]), c.mul(t, inputs[k].coeff, inputs[k].data))
  }

  function Flatten<T>(batches: seq<seq<T>>): seq<T> {
    if batches == [] then [] else Flatten(batches[..|batches| - 1]) + batches[|batches| - 1]
  }

  /** What an area holds: the inputs whose coefficients are set and whose data is prepared. */
  function Stored<C, D>(coeffs: seq<Option<C>>, src: seq<Option<D>>, n: nat): Option<seq<Input<C, D>>>
    requires n <= |coeffs| && n <= |src|
  {
    if n == 0 then Some([])
    else
      match (Stored(coeffs, src, n - 1), coeffs[n - 1], src[n - 1])
      case (Some(rest), Some(x), Some(y)) => Some(rest + [Input(x, y)])
      case _ => None
  }

  // ---------------------------------------------------------------------- actions

  datatype Action<C, D> =
    | Add(input: Input<C, D>, submit: bool)  // the caller stages an input
    | Flush                                  // the caller closes a partly filled area
    | Transfer                               // the transfer thread takes a message
    | Send                                   // the transfer thread sends one request
    | Compute(w: nat)                        // a worker takes a request and computes it
    | CountOff(w: nat)                       // a worker counts off what it computed
    | Release(w: nat)                        // a worker releases an area

  predicate Shaped<C, D, V>(c: Config<C, D, V>, s: State<C, D, V>) {
    && s.current < c.areas && |s.staged| < c.batchSize
    && |s.active| == |s.procRefs| == |s.coeffs| == |s.src| == c.areas
    && (forall a :: 0 <= a < c.areas ==> |s.coeffs[a]| == |s.src[a]| == c.batchSize)
    && |s.requests| == |s.workers| == c.threads
    && |s.output| == |s.done| == |s.finished| == c.tiles
    && |s.batches| == |s.areaOf| == |s.released|
  }

  /** When an action can happen. The caller waits for its area before it adds an input, and a full
      area is always handed over. */
  predicate Enabled<C, D, V>(c: Config<C, D, V>, s: State<C, D, V>, action: Action<C, D>) {
    && Shaped(c, s)
    && match action
       case Add(input, submit) => !s.active[s.current] && (|s.staged| + 1 == c.batchSize ==> submit)
       case Flush => s.staged != []
       case Transfer => s.queue != [] && s.job == None && s.queue[0].area < c.areas
           && (s.queue[0].input.Some? ==> s.queue[0].index < c.batchSize)
       case Send => s.job.Some? && s.job.value.next < c.tiles && c.owner(s.job.value.next) < c.threads
       case Compute(w) => w < c.threads && s.workers[w] == Idle && s.requests[w] != []
           && s.requests[w][0].area < c.areas
                          && s.requests[w][0].tile < c.tiles && s.requests[w][0].inputs <= c.batchSize
       case CountOff(w) => w < c.threads && s.workers[w].Computed? && s.workers[w].request.area < c.areas
           && s.workers[w].request.tile < c.tiles
       case Release(w) => w < c.threads && s.workers[w].Releasing? && s.workers[w].area < c.areas
  }

  /** Hand the current area over and move on to the next one. */
  function HandOver<C, D, V>(c: Config<C, D, V>, s: State<C, D, V>, staged: seq<Input<C, D>>): State<C, D, V>
    requires Shaped(c, s) && c.areas > 0
  {
    s.(active := s.active[s.current := true], staged := [],
       current := if s.current + 1 == c.areas then 0 else s.current + 1,
       batches := s.batches + [staged], areaOf := s.areaOf + [s.current], released := s.released + [false])
  }

  function DoAdd<C, D, V>(c: Config<C, D, V>, s: State<C, D, V>, input: Input<C, D>, submit: bool): State<C, D, V>
    requires c.Valid() && Enabled(c, s, Add(input, submit))
  {
    var a, i := s.current, |s.staged|;
    var message := Message(a, |s.batches|, i, Some(input), submit);
    var s1 := s.(coeffs := s.coeffs[a := s.coeffs[a][i := Some(input.coeff)]], queue := s.queue + [message]);
    if submit then HandOver(c, s1, s.staged + [input]) else s1.(staged := s.staged + [input])
  }

  function DoFlush<C, D, V>(c: Config<C, D, V>, s: State<C, D, V>): State<C, D, V>
    requires c.Valid() && Enabled(c, s, Flush)
  {
    HandOver(c, s.(queue := s.queue + [Message(s.current, |s.batches|, |s.staged|, None, true)]), s.staged)
  }

  /** Prepare the input of a message and, if it submits the batch, set up the requests. */
  function DoTransfer<C, D, V>(c: Config<C, D, V>, s: State<C, D, V>): State<C, D, V>
    requires c.Valid() && Enabled(c, s, Transfer)
  {
    var m := s.queue[0];
    var n := m.index + (if m.input.Some? then 1 else 0);
    var s1 := s.(queue := s.queue[1..], prepared := n,
                 src := if m.input.Some? then s.src[m.area := s.src[m.area][m.index := Some(m.input.value.data)]]
                     else s.src);
    if m.submit then
      s1.(job := Some(Job(m.area, m.batch, n, s.processingAdd, 0)), processingAdd := true,
          procRefs := s.procRefs[m.area := c.tiles], started := s.started + 1, prepared := 0)
    else s1
  }

  function DoSend<C, D, V>(c: Config<C, D, V>, s: State<C, D, V>): State<C, D, V>
    requires c.Valid() && Enabled(c, s, Send)
  {
    var j := s.job.value;
    var w := c.owner(j.next);
    var request := Request(j.area, j.batch, j.next, j.inputs, j.add);
    s.(requests := s.requests[w := s.requests[w] + [request]],
       job := if j.next + 1 == c.tiles then None else Some(j.(next := j.next + 1)))
  }

  /** Multiply the inputs of the area into the tile; the first batch clears the tile first. An input
      that is not there leaves the tile alone. */
  function Computation<C, D, V>(c: Config<C, D, V>, s: State<C, D, V>, r: Request): V
    requires Shaped(c, s) && r.area < c.areas && r.tile < c.tiles && r.inputs <= c.batchSize
  {
    match Stored(s.coeffs[r.area], s.src[r.area], r.inputs)
    case Some(inputs) => Accumulate(c, r.tile, if r.add then s.output[r.tile] else c.zero, inputs)
    case None => s.output[r.tile]
  }

  function DoCompute<C, D, V>(c: Config<C, D, V>, s: State<C, D, V>, w: nat): State<C, D, V>
    requires c.Valid() && Enabled(c, s, Compute(w))
  {
    var r := s.requests[w][0];
    s.(requests := s.requests[w := s.requests[w][1..]], workers := s.workers[w := Computed(r)],
       output := s.output[r.tile := Computation(c, s, r)], done := s.done[r.tile := s.done[r.tile] + 1])
  }

  function DoCountOff<C, D, V>(c: Config<C, D, V>, s: State<C, D, V>, w: nat): State<C, D, V>
    requires c.Valid() && Enabled(c, s, CountOff(w))
  {
    var r := s.workers[w].request;
    s.(procRefs := s.procRefs[r.area := s.procRefs[r.area] - 1],
       finished := s.finished[r.tile := s.finished[r.tile] + 1],
       workers := s.workers[w := if s.procRefs[r.area] <= 1 then Releasing(r.area) else Idle])
  }

  /** The batches of an area that have not been released are released. */
  function DoRelease<C, D, V>(c: Config<C, D, V>, s: State<C, D, V>, w: nat): State<C, D, V>
    requires c.Valid() && Enabled(c, s, Release(w))
  {
    var a := s.workers[w].area;
    s.(active := s.active[a := false], workers := s.workers[w := Idle],
       released := seq(|s.released|, b requires 0 <= b < |s.released| => s.released[b] || s.areaOf[b] == a))
  }

  function Step<C, D, V>(c: Config<C, D, V>, s: State<C, D, V>, action: Action<C, D>): State<C, D, V>
    requires c.Valid() && Enabled(c, s, action)
  {
    match action
    case Add(input, submit) => DoAdd(c, s, input, submit)
    case Flush => DoFlush(c, s)
    case Transfer => DoTransfer(c, s)
    case Send => DoSend(c, s)
    case Compute(w) => DoCompute(c, s, w)
    case CountOff(w) => DoCountOff(c, s, w)
    case Release(w) => DoRelease(c, s, w)
  }

  // ---------------------------------------------------------------------- the caller and the transfer queue

  /** The inputs of a batch; the batch after the last one handed over is the one being staged. */
  function InputsOf<C, D>(batches: seq<seq<Input<C, D>>>, staged: seq<Input<C, D>>, b: nat): seq<Input<C, D>> {
    if b < |batches| then batches[b] else staged
  }

  function AreaFor(areaOf: seq<nat>, current: nat, b: nat): nat {
    if b < |areaOf| then areaOf[b] else current
  }

  function Carried<C, D>(m: Message<C, D>): nat { m.index + if m.input.Some? then 1 else 0 }

  ghost predicate MessageOk<C, D>(m: Message<C, D>, batches: seq<seq<Input<C, D>>>, staged: seq<Input<C, D>>,
                                  areaOf: seq<nat>, current: nat) {
    var inputs := InputsOf(batches, staged, m.batch);
    && m.batch <= |batches| && m.area == AreaFor(areaOf, current, m.batch) && Carried(m) <= |inputs|
    && (m.input.Some? ==> m.index < |inputs| && inputs[m.index] == m.input.value)
    && (if m.submit then m.batch < |batches| && Carried(m) == |inputs| else m.input.Some?)
  }

  /** Messages come in the order of batches and inputs, without gaps. */
  predicate Follows<C, D>(m: Message<C, D>, batch: nat, index: nat) {
    if m.submit then batch == m.batch + 1 && index == 0 else batch == m.batch && index == Carried(m)
  }

  ghost predicate InOrder<C, D>(queue: seq<Message<C, D>>) {
    forall k {:trigger queue[k]} :: 0 < k < |queue| ==> Follows(queue[k - 1], queue[k].batch, queue[k].index)
  }

  lemma InOrderMore<C, D>(queue: seq<Message<C, D>>, m: Message<C, D>)
    requires InOrder(queue) && (queue != [] ==> Follows(queue[|queue| - 1], m.batch, m.index))
    ensures InOrder(queue + [m])
  {}

  ghost predicate QueueOk<C, D>(queue: seq<Message<C, D>>, started: nat, prepared: nat, batches: seq<seq<Input<C, D>>>,
                          staged: seq<Input<C, D>>, areaOf: seq<nat>, current: nat)
  {
    && AllOk(queue, batches, staged, areaOf, current)
    && InOrder(queue)
    && (if queue == [] then started == |batches| && prepared == |staged|
        else
          && queue[0].batch == started && queue[0].index == prepared
          && Follows(queue[|queue| - 1], |batches|, |staged|))
  }

  /** The message that goes with staging an input or flushing an area. */
  ghost predicate NextMessage<C, D>(m: Message<C, D>, batches: seq<seq<Input<C, D>>>, staged: seq<Input<C, D>>,
                                    current: nat, staged': seq<Input<C, D>>) {
    && m.area == current && m.batch == |batches| && m.index == |staged| && (m.submit || m.input.Some?)
    && staged' == staged + if m.input.Some? then [m.input.value] else []
  }

  lemma MessageStays<C, D>(k: Message<C, D>, batches: seq<seq<Input<C, D>>>, staged: seq<Input<C, D>>, areaOf: seq<nat>,
                           current: nat,
                           m: Message<C, D>, staged': seq<Input<C, D>>, next: nat)
    requires MessageOk(k, batches, staged, areaOf, current) && |areaOf| == |batches|
             && NextMessage(m, batches, staged, current, staged')
    ensures m.submit ==> MessageOk(k, batches + [staged'], [], areaOf + [current], next)
    ensures !m.submit ==> MessageOk(k, batches, staged', areaOf, current)
  {}

  ghost predicate AllOk<C, D>(queue: seq<Message<C, D>>, batches: seq<seq<Input<C, D>>>, staged: seq<Input<C, D>>,
                              areaOf: seq<nat>, current: nat) {
    forall k :: 0 <= k < |queue| ==> MessageOk(queue[k], batches, staged, areaOf, current)
  }

  lemma MessagesStay<C, D>(queue: seq<Message<C, D>>, batches: seq<seq<Input<C, D>>>, staged: seq<Input<C, D>>,
                           areaOf: seq<nat>, current: nat,
                           m: Message<C, D>, staged': seq<Input<C, D>>, next: nat)
    requires AllOk(queue, batches, staged, areaOf, current) && |areaOf| == |batches|
             && NextMessage(m, batches, staged, current, staged')
    ensures m.submit ==> AllOk(queue + [m], batches + [staged'], [], areaOf + [current], next)
    ensures !m.submit ==> AllOk(queue + [m], batches, staged', areaOf, current)
  {
    var q := queue + [m];
    assert if m.submit then MessageOk(m, batches + [staged'], [], areaOf + [current], next)
        else MessageOk(m, batches, staged', areaOf, current);
    hide MessageOk, NextMessage;
    forall k | 0 <= k < |q|
      ensures m.submit ==> MessageOk(q[k], batches + [staged'], [], areaOf + [current], next)
      ensures !m.submit ==> MessageOk(q[k], batches, staged', areaOf, current)
    {
      if k < |queue| { MessageStays(queue[k], batches, staged, areaOf, current, m, staged', next); }
    }
  }

  /** Staging one more input, handing the area over or not, appends one message. */
  lemma QueueAdd<C, D>(queue: seq<Message<C, D>>, started: nat, prepared: nat, batches: seq<seq<Input<C, D>>>,
                       staged: seq<Input<C, D>>,
                       areaOf: seq<nat>, current: nat, m: Message<C, D>, staged': seq<Input<C, D>>, next: nat)
    requires QueueOk(queue, started, prepared, batches, staged, areaOf, current) && |areaOf| == |batches|
    requires NextMessage(m, batches, staged, current, staged')
    ensures m.submit ==> QueueOk(queue + [m], started, prepared, batches + [staged'], [], areaOf + [current], next)
    ensures !m.submit ==> QueueOk(queue + [m], started, prepared, batches, staged', areaOf, current)
  {
    hide MessageOk, AllOk, InOrder;
    MessagesStay(queue, batches, staged, areaOf, current, m, staged', next);
    InOrderMore(queue, m);
  }

  lemma QueueHead<C, D>(queue: seq<Message<C, D>>, started: nat, prepared: nat, batches: seq<seq<Input<C, D>>>,
                        staged: seq<Input<C, D>>,
                        areaOf: seq<nat>, current: nat)
    requires QueueOk(queue, started, prepared, batches, staged, areaOf, current) && queue != []
    ensures queue[0].batch == started && queue[0].index == prepared
            && MessageOk(queue[0], batches, staged, areaOf, current)
  {}

  lemma QueuePop<C, D>(queue: seq<Message<C, D>>, started: nat, prepared: nat, batches: seq<seq<Input<C, D>>>,
                       staged: seq<Input<C, D>>,
                       areaOf: seq<nat>, current: nat)
    requires QueueOk(queue, started, prepared, batches, staged, areaOf, current) && queue != []
    ensures var m := queue[0];
            QueueOk(queue[1..], if m.submit then started + 1 else started, if m.submit then 0
                    else Carried(m), batches, staged, areaOf, current)
  {
    var q := queue[1..];
    forall k | 0 <= k < |q| ensures MessageOk(q[k], batches, staged, areaOf, current) { assert q[k] == queue[k + 1]; }
    forall k | 0 < k < |q|
      ensures Follows(q[k - 1], q[k].batch, q[k].index) { assert q[k] == queue[k + 1] && q[k - 1] == queue[k]; }
    if q != [] { assert queue[1] == q[0]; }
  }

  // ---------------------------------------------------------------------- the staging areas

  /** An area is active while a batch that was handed over in it has not been released, and there is
      at most one such batch. An area that is being filled is not active. */
  ghost predicate AreasOk<C, D>(active: seq<bool>, areaOf: seq<nat>, released: seq<bool>, staged: seq<Input<C, D>>,
                                current: nat) {
    && |areaOf| == |released| && current < |active| && (staged != [] ==> !active[current])
    && (forall b :: 0 <= b < |areaOf| ==> areaOf[b] < |active|)
    && (forall b :: 0 <= b < |areaOf| && !released[b] ==> active[areaOf[b]])
    && (forall b, b' :: 0 <= b < b' < |areaOf| && !released[b] && !released[b'] ==> areaOf[b] != areaOf[b'])
    && (forall a :: 0 <= a < |active| && active[a] ==> exists b :: 0 <= b < |areaOf| && !released[b] && areaOf[b] == a)
  }

  lemma AreasBounds<C, D>(active: seq<bool>, areaOf: seq<nat>, released: seq<bool>, staged: seq<Input<C, D>>,
                          current: nat)
    requires AreasOk(active, areaOf, released, staged, current)
    ensures |areaOf| == |released| && current < |active| && (forall b :: 0 <= b < |areaOf| ==> areaOf[b] < |active|)
    ensures staged != [] ==> !active[current]
  {}

  lemma AreasStage<C, D>(active: seq<bool>, areaOf: seq<nat>, released: seq<bool>, staged: seq<Input<C, D>>,
                         current: nat, staged': seq<Input<C, D>>)
    requires AreasOk(active, areaOf, released, staged, current) && current < |active| && !active[current]
    ensures AreasOk(active, areaOf, released, staged', current)
  {}

  lemma AreasHandOver<C, D>(active: seq<bool>, areaOf: seq<nat>, released: seq<bool>, staged: seq<Input<C, D>>,
                            current: nat, next: nat)
    requires AreasOk(active, areaOf, released, staged, current) && !active[current] && next < |active|
    ensures AreasOk<C, D>(active[current := true], areaOf + [current], released + [false], [], next)
  {
    var active', areaOf', released' := active[current := true], areaOf + [current], released + [false];
    forall a | 0 <= a < |active'| && active'[a]
      ensures exists b :: 0 <= b < |areaOf'| && !released'[b] && areaOf'[b] == a {
      if a == current {
        assert !released'[|areaOf|] && areaOf'[|areaOf|] == a;
      } else {
        var b :| 0 <= b < |areaOf| && !released[b] && areaOf[b] == a;
        assert !released'[b] && areaOf'[b] == a;
      }
    }
  }

  lemma AreasRelease<C, D>(active: seq<bool>, areaOf: seq<nat>, released: seq<bool>, released': seq<bool>,
                           staged: seq<Input<C, D>>, current: nat, a: nat)
    requires AreasOk(active, areaOf, released, staged, current) && a < |active|
    requires |released'| == |released|
             && forall b :: 0 <= b < |released| ==> released'[b] == (released[b] || areaOf[b] == a)
    ensures AreasOk(active[a := false], areaOf, released', staged, current)
  {
    var active' := active[a := false];
    forall x | 0 <= x < |active'| && active'[x]
      ensures exists b :: 0 <= b < |areaOf| && !released'[b] && areaOf[b] == x {
      var b :| 0 <= b < |areaOf| && !released[b] && areaOf[b] == x;
      assert !released'[b];
    }
  }

  // ---------------------------------------------------------------------- what the areas hold

  ghost predicate CoeffsHeld<C, D>(coeffs: seq<Option<C>>, inputs: seq<Input<C, D>>) {
    |inputs| <= |coeffs| && forall i :: 0 <= i < |inputs| ==> coeffs[i] == Some(inputs[i].coeff)
  }

  ghost predicate DataHeld<C, D>(src: seq<Option<D>>, inputs: seq<Input<C, D>>, n: nat) {
    n <= |inputs| <= |src| && forall i :: 0 <= i < n ==> src[i] == Some(inputs[i].data)
  }

  /** How many inputs of batch b have been prepared. */
  function PreparedOf<C, D>(started: nat, prepared: nat, inputs: seq<Input<C, D>>, b: nat): nat {
    if b < started then |inputs| else if b == started then prepared else 0
  }

  /** The area of a batch that is not released holds its coefficients and its prepared inputs; so does
      the area being filled. */
  ghost predicate ContentsOk<C, D>(coeffs: seq<seq<Option<C>>>, src: seq<seq<Option<D>>>,
                                   batches: seq<seq<Input<C, D>>>, areaOf: seq<nat>,
                                   released: seq<bool>, started: nat, prepared: nat, staged: seq<Input<C, D>>,
                                   current: nat)
    requires |batches| == |areaOf| == |released| && |coeffs| == |src| && current < |src|
             && forall b :: 0 <= b < |areaOf| ==> areaOf[b] < |src|
  {
    && (forall b :: 0 <= b < |batches| && !released[b] ==>
          && CoeffsHeld(coeffs[areaOf[b]], batches[b])
          && DataHeld(src[areaOf[b]], batches[b], PreparedOf(started, prepared, batches[b], b)))
    && CoeffsHeld(coeffs[current], staged)
       && DataHeld(src[current], staged, PreparedOf(started, prepared, staged, |batches|))
  }

  lemma {:induction false} StoredHeld<C, D>(coeffs: seq<Option<C>>, src: seq<Option<D>>, inputs: seq<Input<C, D>>,
                                            n: nat)
    requires CoeffsHeld(coeffs, inputs) && DataHeld(src, inputs, |inputs|) && n <= |inputs|
    ensures Stored(coeffs, src, n) == Some(inputs[..n])
  {
    if n > 0 {
      StoredHeld(coeffs, src, inputs, n - 1);
      assert inputs[..n] == inputs[..n - 1] + [inputs[n - 1]];
    }
  }

  /** Staging an input touches an area that no batch occupies. */
  lemma ContentsAdd<C, D>(coeffs: seq<seq<Option<C>>>, src: seq<seq<Option<D>>>, batches: seq<seq<Input<C, D>>>,
                          areaOf: seq<nat>,
                          released: seq<bool>, active: seq<bool>, started: nat, prepared: nat, staged: seq<Input<C, D>>,
                          current: nat, input: Input<C, D>)
    requires |batches| == |areaOf| && |coeffs| == |src| == |active|
             && AreasOk(active, areaOf, released, staged, current) && !active[current]
    requires ContentsOk(coeffs, src, batches, areaOf, released, started, prepared, staged, current)
    requires |staged| < |coeffs[current]| == |src[current]| && started <= |batches|
    ensures ContentsOk(coeffs[current := coeffs[current][|staged| := Some(input.coeff)]], src, batches, areaOf,
                       released, started, prepared, staged + [input], current)
  {
    var coeffs' := coeffs[current := coeffs[current][|staged| := Some(input.coeff)]];
    forall b | 0 <= b < |batches| && !released[b] ensures CoeffsHeld(coeffs'[areaOf[b]], batches[b]) {
      assert active[areaOf[b]];
    }
    assert DataHeld(src[current], staged, PreparedOf(started, prepared, staged, |batches|));
  }

  lemma ContentsHandOver<C, D>(coeffs: seq<seq<Option<C>>>, src: seq<seq<Option<D>>>, batches: seq<seq<Input<C, D>>>,
                               areaOf: seq<nat>,
                               released: seq<bool>, started: nat, prepared: nat, staged: seq<Input<C, D>>, current: nat,
                               next: nat)
    requires |batches| == |areaOf| == |released| && |coeffs| == |src| && current < |src| && next < |src|
    requires forall b :: 0 <= b < |areaOf| ==> areaOf[b] < |src|
    requires ContentsOk(coeffs, src, batches, areaOf, released, started, prepared, staged, current)
             && started <= |batches|
    ensures ContentsOk(coeffs, src, batches + [staged], areaOf + [current], released + [false], started, prepared, [],
                       next)
  {}

  /** Preparing an input touches the area of its own batch only. */
  lemma ContentsTransfer<C, D>(coeffs: seq<seq<Option<C>>>, src: seq<seq<Option<D>>>, batches: seq<seq<Input<C, D>>>,
                               areaOf: seq<nat>,
                               released: seq<bool>, active: seq<bool>, started: nat, prepared: nat,
                               staged: seq<Input<C, D>>, current: nat, m: Message<C, D>)
    requires |batches| == |areaOf| && |coeffs| == |src| == |active|
             && AreasOk(active, areaOf, released, staged, current)
    requires ContentsOk(coeffs, src, batches, areaOf, released, started, prepared, staged, current)
    requires MessageOk(m, batches, staged, areaOf, current) && m.batch == started && m.index == prepared
    requires m.batch < |batches| ==> !released[m.batch]
    requires m.input.Some? ==> m.area < |src| && m.index < |src[m.area]|
    ensures var src' := if m.input.Some? then src[m.area := src[m.area][m.index := Some(m.input.value.data)]] else src;
            ContentsOk(coeffs, src', batches, areaOf, released, if m.submit then started + 1
                       else started, if m.submit then 0 else Carried(m), staged, current)
  {
    var src' := if m.input.Some? then src[m.area := src[m.area][m.index := Some(m.input.value.data)]] else src;
    var started', prepared' := if m.submit then started + 1 else started, if m.submit then 0 else Carried(m);
    forall b | 0 <= b < |batches| && !released[b]
      ensures DataHeld(src'[areaOf[b]], batches[b], PreparedOf(started', prepared', batches[b], b))
    {
      assert DataHeld(src[areaOf[b]], batches[b], PreparedOf(started, prepared, batches[b], b));
      if b != m.batch {
        OtherArea(active, areaOf, released, staged, current, m.batch, b);
      }
    }
    assert DataHeld(src[current], staged, PreparedOf(started, prepared, staged, |batches|));
    if m.batch < |batches| && staged != [] {
      assert active[areaOf[m.batch]];
    }
  }

  /** A batch that is not released shares its area with no other batch, and not with the inputs staged. */
  lemma OtherArea<C, D>(active: seq<bool>, areaOf: seq<nat>, released: seq<bool>, staged: seq<Input<C, D>>,
                        current: nat, b: nat, b': nat)
    requires AreasOk(active, areaOf, released, staged, current) && b' < |areaOf| && !released[b'] && b != b'
    requires b < |areaOf| ==> !released[b]
    requires b >= |areaOf| ==> !active[current]
    ensures AreaFor(areaOf, current, b) != areaOf[b']
  {}

  // ---------------------------------------------------------------------- the requests

  predicate Before(r: Request, r': Request) {
    r.batch < r'.batch || (r.batch == r'.batch && r.tile < r'.tile)
  }

  /** How many batches have had their request for tile t sent. */
  function Sent(started: nat, job: Option<Job>, t: nat): int {
    if job.Some? && job.value.next <= t then started - 1 else started
  }

  ghost predicate RequestOk<C, D>(r: Request, batches: seq<seq<Input<C, D>>>, areaOf: seq<nat>) {
    r.batch < |batches| && r.batch < |areaOf| && r.area == areaOf[r.batch] && r.inputs == |batches[r.batch]|
        && r.add == (r.batch > 0)
  }

  ghost predicate JobOk<C, D, V>(c: Config<C, D, V>, job: Option<Job>, started: nat, processingAdd: bool,
                                 batches: seq<seq<Input<C, D>>>, areaOf: seq<nat>) {
    && started <= |batches| && processingAdd == (started > 0)
    && (job.Some? ==>
          && started > 0 && job.value.batch == started - 1 && job.value.next < c.tiles
          && RequestOk(Request(job.value.area, job.value.batch, job.value.next, job.value.inputs, job.value.add),
                       batches, areaOf))
  }

  ghost predicate Waiting(queue: seq<Request>, b: nat, t: nat) {
    exists i :: 0 <= i < |queue| && queue[i].batch == b && queue[i].tile == t
  }

  /** The queue of thread w holds, in order of batches and tiles, the requests for its own tiles that
      have been sent and not been taken. */
  ghost predicate ThreadOk<C, D, V>(c: Config<C, D, V>, w: nat, queue: seq<Request>, done: seq<nat>, started: nat,
                                    job: Option<Job>,
                                    batches: seq<seq<Input<C, D>>>, areaOf: seq<nat>)
    requires |done| == c.tiles
  {
    && (forall i :: 0 <= i < |queue| ==>
          && RequestOk(queue[i], batches, areaOf) && queue[i].tile < c.tiles && c.owner(queue[i].tile) == w
          && done[queue[i].tile] <= queue[i].batch < Sent(started, job, queue[i].tile))
    && (forall i, j :: 0 <= i < j < |queue| ==> Before(queue[i], queue[j]))
    && (forall t, b {:trigger Waiting(queue, b, t)} ::
        0 <= t < c.tiles && c.owner(t) == w && done[t] <= b < Sent(started, job, t) ==> Waiting(queue, b, t))
  }

  ghost predicate WorkOk<C, D, V>(c: Config<C, D, V>, requests: seq<seq<Request>>, done: seq<nat>, started: nat,
                                  job: Option<Job>,
                                  batches: seq<seq<Input<C, D>>>, areaOf: seq<nat>)
    requires |done| == c.tiles
  {
    && (forall w :: 0 <= w < |requests| ==> ThreadOk(c, w, requests[w], done, started, job, batches, areaOf))
    && (forall t :: 0 <= t < c.tiles ==> done[t] <= Sent(started, job, t))
  }

  /** The request a thread takes is for the batch that its tile needs next. */
  lemma HeadIsNext<C, D, V>(c: Config<C, D, V>, w: nat, queue: seq<Request>, done: seq<nat>, started: nat,
                            job: Option<Job>,
                            batches: seq<seq<Input<C, D>>>, areaOf: seq<nat>)
    requires |done| == c.tiles && ThreadOk(c, w, queue, done, started, job, batches, areaOf) && queue != []
    ensures queue[0].tile < c.tiles && queue[0].batch == done[queue[0].tile]
  {
    var r := queue[0];
    assert Waiting(queue, done[r.tile], r.tile);
  }

  lemma ThreadTake<C, D, V>(c: Config<C, D, V>, w: nat, queue: seq<Request>, done: seq<nat>, started: nat,
                            job: Option<Job>,
                            batches: seq<seq<Input<C, D>>>, areaOf: seq<nat>)
    requires |done| == c.tiles && ThreadOk(c, w, queue, done, started, job, batches, areaOf) && queue != []
             && queue[0].tile < c.tiles
    ensures var t := queue[0].tile; ThreadOk(c, w, queue[1..], done[t := done[t] + 1], started, job, batches, areaOf)
  {
    HeadIsNext(c, w, queue, done, started, job, batches, areaOf);
    var r, q := queue[0], queue[1..];
    var done' := done[r.tile := done[r.tile] + 1];
    forall i | 0 <= i < |q| ensures done'[q[i].tile] <= q[i].batch {
      assert q[i] == queue[i + 1] && Before(queue[0], queue[i + 1]);
    }
    forall t, b | 0 <= t < c.tiles && c.owner(t) == w && done'[t] <= b < Sent(started, job, t)
      ensures Waiting(q, b, t) {
      assert Waiting(queue, b, t);
      var i :| 0 <= i < |queue| && queue[i].batch == b && queue[i].tile == t;
      assert i > 0 && q[i - 1] == queue[i];
    }
  }

  lemma ThreadOther<C, D, V>(c: Config<C, D, V>, w: nat, queue: seq<Request>, done: seq<nat>, started: nat,
                             job: Option<Job>,
                             batches: seq<seq<Input<C, D>>>, areaOf: seq<nat>, t: nat, n: nat)
    requires |done| == c.tiles && ThreadOk(c, w, queue, done, started, job, batches, areaOf) && t < c.tiles
             && c.owner(t) != w
    ensures ThreadOk(c, w, queue, done[t := n], started, job, batches, areaOf)
  {}

  lemma WorkTake<C, D, V>(c: Config<C, D, V>, requests: seq<seq<Request>>, done: seq<nat>, started: nat,
                          job: Option<Job>,
                          batches: seq<seq<Input<C, D>>>, areaOf: seq<nat>, w: nat)
    requires |done| == c.tiles && WorkOk(c, requests, done, started, job, batches, areaOf) && w < |requests|
             && requests[w] != []
    requires requests[w][0].tile < c.tiles
    ensures var t := requests[w][0].tile;
    WorkOk(c, requests[w := requests[w][1..]], done[t := done[t] + 1], started, job, batches, areaOf)
  {
    var t := requests[w][0].tile;
    var requests', done' := requests[w := requests[w][1..]], done[t := done[t] + 1];
    assert ThreadOk(c, w, requests[w], done, started, job, batches, areaOf);
    forall v | 0 <= v < |requests| ensures ThreadOk(c, v, requests'[v], done', started, job, batches, areaOf) {
      if v == w {
        ThreadTake(c, w, requests[w], done, started, job, batches, areaOf);
      } else {
        assert ThreadOk(c, v, requests[v], done, started, job, batches, areaOf);
        ThreadOther(c, v, requests[v], done, started, job, batches, areaOf, t, done[t] + 1);
      }
    }
    HeadIsNext(c, w, requests[w], done, started, job, batches, areaOf);
  }

  lemma SentAfter<C, D, V>(c: Config<C, D, V>, started: nat, j: Job, job': Option<Job>, t: nat)
    requires job' == (if j.next + 1 == c.tiles then None else Some(j.(next := j.next + 1))) && t < c.tiles
    ensures Sent(started, job', t) == if t == j.next then started else Sent(started, Some(j), t)
  {}

  /** The thread that owns the next tile gets the request. */
  lemma ThreadSend<C, D, V>(c: Config<C, D, V>, w: nat, queue: seq<Request>, done: seq<nat>, started: nat, j: Job,
                            batches: seq<seq<Input<C, D>>>, areaOf: seq<nat>, processingAdd: bool, job': Option<Job>,
                            r: Request)
    requires |done| == c.tiles && JobOk(c, Some(j), started, processingAdd, batches, areaOf)
    requires ThreadOk(c, w, queue, done, started, Some(j), batches, areaOf)
    requires job' == if j.next + 1 == c.tiles then None else Some(j.(next := j.next + 1))
    requires c.owner(j.next) == w && done[j.next] <= started - 1
             && r == Request(j.area, j.batch, j.next, j.inputs, j.add)
    ensures ThreadOk(c, w, queue + [r], done, started, job', batches, areaOf)
  {
    var q := queue + [r];
    forall t | 0 <= t < c.tiles
      ensures Sent(started, job', t) == if t == j.next then started else Sent(started, Some(j), t) {
        SentAfter(c, started, j, job', t); }
    forall i, k | 0 <= i < k < |q| ensures Before(q[i], q[k]) {
      if k == |queue| { assert queue[i].batch < Sent(started, Some(j), queue[i].tile); }
    }
    forall t, b | 0 <= t < c.tiles && c.owner(t) == w && done[t] <= b < Sent(started, job', t)
      ensures Waiting(q, b, t) {
      if b < Sent(started, Some(j), t) {
        assert Waiting(queue, b, t);
        var i :| 0 <= i < |queue| && queue[i].batch == b && queue[i].tile == t;
        assert q[i] == queue[i];
      } else {
        assert q[|queue|] == r;
      }
    }
  }

  lemma ThreadSkip<C, D, V>(c: Config<C, D, V>, w: nat, queue: seq<Request>, done: seq<nat>, started: nat, j: Job,
                            batches: seq<seq<Input<C, D>>>, areaOf: seq<nat>, job': Option<Job>)
    requires |done| == c.tiles && ThreadOk(c, w, queue, done, started, Some(j), batches, areaOf)
    requires job' == if j.next + 1 == c.tiles then None else Some(j.(next := j.next + 1))
    requires c.owner(j.next) != w
    ensures ThreadOk(c, w, queue, done, started, job', batches, areaOf)
  {
    forall t | 0 <= t < c.tiles
      ensures Sent(started, job', t) == if t == j.next then started else Sent(started, Some(j), t) {
        SentAfter(c, started, j, job', t); }
  }

  lemma WorkSend<C, D, V>(c: Config<C, D, V>, requests: seq<seq<Request>>, done: seq<nat>, started: nat, j: Job,
                          batches: seq<seq<Input<C, D>>>, areaOf: seq<nat>, processingAdd: bool, job': Option<Job>)
    requires |done| == c.tiles && JobOk(c, Some(j), started, processingAdd, batches, areaOf)
    requires WorkOk(c, requests, done, started, Some(j), batches, areaOf) && c.owner(j.next) < |requests|
    requires job' == if j.next + 1 == c.tiles then None else Some(j.(next := j.next + 1))
    ensures var w, r := c.owner(j.next), Request(j.area, j.batch, j.next, j.inputs, j.add);
            WorkOk(c, requests[w := requests[w] + [r]], done, started, job', batches, areaOf)
  {
    var w, r := c.owner(j.next), Request(j.area, j.batch, j.next, j.inputs, j.add);
    var requests' := requests[w := requests[w] + [r]];
    assert done[j.next] <= Sent(started, Some(j), j.next);
    forall v | 0 <= v < |requests| ensures ThreadOk(c, v, requests'[v], done, started, job', batches, areaOf) {
      assert ThreadOk(c, v, requests[v], done, started, Some(j), batches, areaOf);
      if v == w {
        ThreadSend(c, v, requests[v], done, started, j, batches, areaOf, processingAdd, job', r);
      } else {
        ThreadSkip(c, v, requests[v], done, started, j, batches, areaOf, job');
      }
    }
    forall t | 0 <= t < c.tiles ensures done[t] <= Sent(started, job', t) {
      assert done[t] <= Sent(started, Some(j), t);
    }
  }

  /** Starting a batch sends nothing yet. */
  lemma WorkStart<C, D, V>(c: Config<C, D, V>, requests: seq<seq<Request>>, done: seq<nat>, started: nat, j: Job,
                           batches: seq<seq<Input<C, D>>>, areaOf: seq<nat>)
    requires |done| == c.tiles && WorkOk(c, requests, done, started, None, batches, areaOf) && j.next == 0
    ensures WorkOk(c, requests, done, started + 1, Some(j), batches, areaOf)
  {
    forall t: nat ensures Sent(started + 1, Some(j), t) == Sent(started, None, t) {}
    forall w | 0 <= w < |requests| ensures ThreadOk(c, w, requests[w], done, started + 1, Some(j), batches, areaOf) {
      assert ThreadOk(c, w, requests[w], done, started, None, batches, areaOf);
    }
  }

  /** Handing over another batch does not concern the requests. */
  lemma WorkMore<C, D, V>(c: Config<C, D, V>, requests: seq<seq<Request>>, done: seq<nat>, started: nat,
                          job: Option<Job>,
                          batches: seq<seq<Input<C, D>>>, areaOf: seq<nat>, batch: seq<Input<C, D>>, area: nat)
    requires |done| == c.tiles && WorkOk(c, requests, done, started, job, batches, areaOf) && |batches| == |areaOf|
    ensures WorkOk(c, requests, done, started, job, batches + [batch], areaOf + [area])
  {
    forall w | 0 <= w < |requests|
      ensures ThreadOk(c, w, requests[w], done, started, job, batches + [batch], areaOf + [area]) {
      assert ThreadOk(c, w, requests[w], done, started, job, batches, areaOf);
    }
  }

  // ---------------------------------------------------------------------- workers between two requests

  /** A tile has been computed once more than it was counted off exactly while its thread holds the
      request for it. */
  ghost predicate BusyOk<C, D, V>(c: Config<C, D, V>, workers: seq<Worker>, done: seq<nat>, finished: seq<nat>,
                                  batches: seq<seq<Input<C, D>>>, areaOf: seq<nat>)
    requires c.Valid() && |workers| == c.threads && |done| == |finished| == c.tiles
  {
    && (forall w :: 0 <= w < |workers| && workers[w].Computed? ==>
          var r := workers[w].request;
          && r.tile < c.tiles && c.owner(r.tile) == w && r.batch == finished[r.tile]
             && done[r.tile] == finished[r.tile] + 1
          && RequestOk(r, batches, areaOf))
    && (forall t :: 0 <= t < c.tiles ==>
          finished[t] == done[t] || (workers[c.owner(t)].Computed? && workers[c.owner(t)].request.tile == t))
  }

  /** How many tiles have not been counted off for batch b. */
  function Open(finished: seq<nat>, b: nat): nat {
    if finished == [] then 0
    else Open(finished[..|finished| - 1], b) + if finished[|finished| - 1] <= b then 1 else 0
  }

  lemma {:induction false} OpenUpdate(finished: seq<nat>, t: nat, b: nat)
    requires t < |finished|
    ensures var finished' := finished[t := finished[t] + 1];
            Open(finished', b) == if b == finished[t] then Open(finished, b) - 1 else Open(finished, b)
  {
    var k := |finished| - 1;
    if t < k {
      OpenUpdate(finished[..k], t, b);
      assert finished[t := finished[t] + 1][..k] == finished[..k][t := finished[..k][t] + 1];
    } else {
      assert finished[t := finished[t] + 1][..k] == finished[..k];
    }
  }

  lemma {:induction false} OpenZero(finished: seq<nat>, b: nat, t: nat)
    requires Open(finished, b) == 0 && t < |finished|
    ensures finished[t] > b
  {
    var k := |finished| - 1;
    if t < k { OpenZero(finished[..k], b, t); }
  }

  lemma {:induction false} OpenAll(finished: seq<nat>, b: nat)
    requires forall t :: 0 <= t < |finished| ==> finished[t] <= b
    ensures Open(finished, b) == |finished|
  {
    if finished != [] { OpenAll(finished[..|finished| - 1], b); }
  }

  lemma {:induction false} OpenNone(finished: seq<nat>, b: nat)
    requires forall t :: 0 <= t < |finished| ==> finished[t] > b
    ensures Open(finished, b) == 0
  {
    if finished != [] { OpenNone(finished[..|finished| - 1], b); }
  }

  // ---------------------------------------------------------------------- reference counts

  /** Batch b occupies area a and every tile has been counted off for it. */
  ghost predicate Exhausted(a: nat, b: nat, finished: seq<nat>, areaOf: seq<nat>, released: seq<bool>, started: nat) {
    b < started && b < |areaOf| && b < |released| && !released[b] && areaOf[b] == a && Open(finished, b) == 0
  }

  ghost predicate ReleasedBy(workers: seq<Worker>, a: nat) {
    exists w :: 0 <= w < |workers| && workers[w] == Releasing(a)
  }

  /** The count of an area is the number of requests of its batch that are not counted off. When it
      has reached zero, exactly one thread is about to release the area. */
  ghost predicate RefsOk(procRefs: seq<int>, finished: seq<nat>, areaOf: seq<nat>, released: seq<bool>, started: nat,
                         workers: seq<Worker>)
    requires |areaOf| == |released| && forall b :: 0 <= b < |areaOf| ==> areaOf[b] < |procRefs|
  {
    && (forall b :: 0 <= b < |areaOf| && b < started && !released[b] ==> procRefs[areaOf[b]] == Open(finished, b))
    && (forall b :: 0 <= b < |areaOf| && released[b] ==> b < started && Open(finished, b) == 0)
    && (forall w :: 0 <= w < |workers| && workers[w].Releasing? ==>
        exists b :: Exhausted(workers[w].area, b, finished, areaOf, released, started))
    && (forall a, b :: Exhausted(a, b, finished, areaOf, released, started) ==> ReleasedBy(workers, a))
    && (forall w, w' :: 0 <= w < w' < |workers| && workers[w].Releasing? && workers[w'].Releasing? ==>
        workers[w].area != workers[w'].area)
  }

  lemma NotReleased(procRefs: seq<int>, finished: seq<nat>, areaOf: seq<nat>, released: seq<bool>, started: nat,
                    workers: seq<Worker>, b: nat)
    requires |areaOf| == |released| && forall b :: 0 <= b < |areaOf| ==> areaOf[b] < |procRefs|
    requires RefsOk(procRefs, finished, areaOf, released, started, workers) && started <= b < |areaOf|
    ensures !released[b]
  {}

  lemma RefsMore(procRefs: seq<int>, finished: seq<nat>, areaOf: seq<nat>, released: seq<bool>, started: nat,
                 workers: seq<Worker>, area: nat)
    requires |areaOf| == |released| && (forall b :: 0 <= b < |areaOf| ==> areaOf[b] < |procRefs|) && area < |procRefs|
             && started <= |areaOf|
    requires RefsOk(procRefs, finished, areaOf, released, started, workers)
    ensures RefsOk(procRefs, finished, areaOf + [area], released + [false], started, workers)
  {
    forall a, b ensures Exhausted(a, b, finished, areaOf + [area], released + [false], started)
        <==> Exhausted(a, b, finished, areaOf, released, started) {}
  }

  lemma RefsStart<C, D>(procRefs: seq<int>, finished: seq<nat>, areaOf: seq<nat>, released: seq<bool>, started: nat,
                        workers: seq<Worker>, tiles: nat,
                        active: seq<bool>, staged: seq<Input<C, D>>, current: nat, next: nat)
    requires AreasOk(active, areaOf, released, staged, current) && |active| == |procRefs|
    requires RefsOk(procRefs, finished, areaOf, released, started, workers) && started < |areaOf|
             && |finished| == tiles > 0
    requires next == started + 1 && forall t :: 0 <= t < tiles ==> finished[t] <= started
    ensures RefsOk(procRefs[areaOf[started] := tiles], finished, areaOf, released, next, workers)
  {
    OpenAll(finished, started);
    assert !released[started];
    forall b | 0 <= b < |areaOf| && b < started && !released[b] ensures areaOf[b] != areaOf[started] {}
    forall a, b ensures Exhausted(a, b, finished, areaOf, released, next)
        <==> Exhausted(a, b, finished, areaOf, released, started) {}
    forall w | 0 <= w < |workers| && workers[w].Releasing?
      ensures exists b :: Exhausted(workers[w].area, b, finished, areaOf, released, next)
    {
      var b :| Exhausted(workers[w].area, b, finished, areaOf, released, started);
      assert Exhausted(workers[w].area, b, finished, areaOf, released, next);
    }
    forall a, b | Exhausted(a, b, finished, areaOf, released, next) ensures ReleasedBy(workers, a) {
      assert Exhausted(a, b, finished, areaOf, released, started);
    }
  }

  /** Counting off one request takes one from the count of its own batch only. */
  lemma RefsCountOff<C, D>(procRefs: seq<int>, finished: seq<nat>, areaOf: seq<nat>, released: seq<bool>, started: nat,
                           workers: seq<Worker>,
                           active: seq<bool>, staged: seq<Input<C, D>>, current: nat, w: nat, t: nat)
    requires AreasOk(active, areaOf, released, staged, current) && |active| == |procRefs|
    requires RefsOk(procRefs, finished, areaOf, released, started, workers) && t < |finished|
             && finished[t] < started <= |areaOf|
    requires w < |workers| && workers[w].Computed?
    ensures var a := areaOf[finished[t]];
            RefsOk(procRefs[a := procRefs[a] - 1], finished[t := finished[t] + 1], areaOf, released, started,
                   workers[w := if procRefs[a] <= 1 then Releasing(a) else Idle])
  {
    var b0 := finished[t];
    var a := areaOf[b0];
    var finished' := finished[t := b0 + 1];
    var workers' := workers[w := if procRefs[a] <= 1 then Releasing(a) else Idle];
    forall b ensures Open(finished', b) == if b == b0 then Open(finished, b) - 1 else Open(finished, b) {
      OpenUpdate(finished, t, b); }
    assert Open(finished, b0) >= 1;
    assert !released[b0];
    forall b | 0 <= b < |areaOf| && !released[b] && b != b0 ensures areaOf[b] != a {}
    assert forall x :: Exhausted(x, b0, finished', areaOf, released, started) <==> x == a && procRefs[a] <= 1;
    forall x, b | b != b0
      ensures Exhausted(x, b, finished', areaOf, released, started)
              <==> Exhausted(x, b, finished, areaOf, released, started) {}
    RefsWorkers(finished, finished', areaOf, released, started, workers, workers', w, a, b0);
  }

  lemma RefsWorkers(finished: seq<nat>, finished': seq<nat>, areaOf: seq<nat>, released: seq<bool>, started: nat,
                    workers: seq<Worker>, workers': seq<Worker>, w: nat, a: nat, b0: nat)
    requires w < |workers| && workers[w].Computed? && |workers'| == |workers|
    requires forall v :: 0 <= v < |workers| && v != w ==> workers'[v] == workers[v]
    requires workers'[w] == Idle || workers'[w] == Releasing(a)
    requires (workers'[w] == Releasing(a)) == Exhausted(a, b0, finished', areaOf, released, started)
    requires forall x :: Exhausted(x, b0, finished', areaOf, released, started) ==> x == a
    requires forall x, b :: b != b0 ==>
             (Exhausted(x, b, finished', areaOf, released, started)
              <==> Exhausted(x, b, finished, areaOf, released, started))
    requires forall x :: !Exhausted(x, b0, finished, areaOf, released, started)
    requires forall b :: 0 <= b < |areaOf| && b < |released| && !released[b] && b != b0 ==> areaOf[b] != a
    requires forall v :: 0 <= v < |workers| && workers[v].Releasing? ==>
             exists b :: Exhausted(workers[v].area, b, finished, areaOf, released, started)
    requires forall x, b :: Exhausted(x, b, finished, areaOf, released, started) ==> ReleasedBy(workers, x)
    requires forall v, v' :: 0 <= v < v' < |workers| && workers[v].Releasing? && workers[v'].Releasing? ==>
             workers[v].area != workers[v'].area
    ensures forall v :: 0 <= v < |workers'| && workers'[v].Releasing? ==>
            exists b :: Exhausted(workers'[v].area, b, finished', areaOf, released, started)
    ensures forall x, b :: Exhausted(x, b, finished', areaOf, released, started) ==> ReleasedBy(workers', x)
    ensures forall v, v' :: 0 <= v < v' < |workers'| && workers'[v].Releasing? && workers'[v'].Releasing? ==>
            workers'[v].area != workers'[v'].area
  {
    forall v | 0 <= v < |workers'| && v != w && workers'[v].Releasing?
      ensures workers'[v].area != a && exists b :: Exhausted(workers'[v].area, b, finished', areaOf, released, started)
    {
      var b :| Exhausted(workers[v].area, b, finished, areaOf, released, started);
      assert b != b0;
      assert Exhausted(workers'[v].area, b, finished', areaOf, released, started);
    }
    forall x, b | Exhausted(x, b, finished', areaOf, released, started) ensures ReleasedBy(workers', x) {
      if b == b0 {
        assert workers'[w] == Releasing(x);
      } else {
        assert ReleasedBy(workers, x);
        var v :| 0 <= v < |workers| && workers[v] == Releasing(x);
        assert workers'[v] == Releasing(x);
      }
    }
  }

  /** Releasing an area releases the one batch that occupies it. */
  lemma RefsRelease<C, D>(procRefs: seq<int>, finished: seq<nat>, areaOf: seq<nat>, released: seq<bool>,
                          released': seq<bool>, started: nat, workers: seq<Worker>,
                          active: seq<bool>, staged: seq<Input<C, D>>, current: nat, w: nat, a: nat)
    requires AreasOk(active, areaOf, released, staged, current) && |active| == |procRefs|
    requires RefsOk(procRefs, finished, areaOf, released, started, workers)
    requires w < |workers| && workers[w] == Releasing(a)
    requires |released'| == |released|
             && forall b :: 0 <= b < |released| ==> released'[b] == (released[b] || areaOf[b] == a)
    ensures RefsOk(procRefs, finished, areaOf, released', started, workers[w := Idle])
  {
    var workers' := workers[w := Idle];
    var b0 :| Exhausted(workers[w].area, b0, finished, areaOf, released, started);
    forall b | 0 <= b < |areaOf| && !released[b] && areaOf[b] == a ensures b == b0 {}
    forall v | 0 <= v < |workers'| && workers'[v].Releasing?
      ensures exists b :: Exhausted(workers'[v].area, b, finished, areaOf, released', started)
    {
      assert workers'[v] == workers[v] && workers[v].area != a;
      var b :| Exhausted(workers[v].area, b, finished, areaOf, released, started);
      assert Exhausted(workers'[v].area, b, finished, areaOf, released', started);
    }
    forall x, b | Exhausted(x, b, finished, areaOf, released', started) ensures ReleasedBy(workers', x) {
      assert Exhausted(x, b, finished, areaOf, released, started);
      var v :| 0 <= v < |workers| && workers[v] == Releasing(x);
      assert workers'[v] == Releasing(x);
    }
  }

  // ---------------------------------------------------------------------- the output

  lemma {:induction false} AccumulateAppend<C, D, V>(c: Config<C, D, V>, t: nat, base: V, xs: seq<Input<C, D>>,
      ys: seq<Input<C, D>>)
    ensures Accumulate(c, t, base, xs + ys) == Accumulate(c, t, Accumulate(c, t, base, xs), ys)
  {
    if ys == [] {
      assert xs + ys == xs;
    } else {
      var k := |ys| - 1;
      AccumulateAppend(c, t, base, xs, ys[..k]);
      assert (xs + ys)[..|xs + ys| - 1] == xs + ys[..k];
    }
  }

  /** The products of the first n batches with tile t. */
  function Expected<C, D, V>(c: Config<C, D, V>, batches: seq<seq<Input<C, D>>>, n: nat, t: nat): V
    requires n <= |batches|
  {
    Accumulate(c, t, c.zero, Flatten(batches[..n]))
  }

  lemma ExpectedNext<C, D, V>(c: Config<C, D, V>, batches: seq<seq<Input<C, D>>>, n: nat, t: nat)
    requires n < |batches|
    ensures Expected(c, batches, n + 1, t) == Accumulate(c, t, Expected(c, batches, n, t), batches[n])
  {
    assert batches[..n + 1][..n] == batches[..n];
    AccumulateAppend(c, t, c.zero, Flatten(batches[..n]), batches[n]);
  }

  /** A tile holds the products of the batches computed for it. */
  ghost predicate OutputOk<C, D, V>(c: Config<C, D, V>, output: seq<V>, done: seq<nat>,
                                    batches: seq<seq<Input<C, D>>>) {
    |output| == |done| && forall t :: 0 <= t < |done| ==>
        done[t] <= |batches| && (done[t] > 0 ==> output[t] == Expected(c, batches, done[t], t))
  }

  lemma OutputMore<C, D, V>(c: Config<C, D, V>, output: seq<V>, done: seq<nat>, batches: seq<seq<Input<C, D>>>,
                            batch: seq<Input<C, D>>)
    requires OutputOk(c, output, done, batches)
    ensures OutputOk(c, output, done, batches + [batch])
  {
    forall t | 0 <= t < |done| && done[t] > 0 ensures output[t] == Expected(c, batches + [batch], done[t], t) {
      assert (batches + [batch])[..done[t]] == batches[..done[t]];
    }
  }

  lemma OutputCompute<C, D, V>(c: Config<C, D, V>, output: seq<V>, done: seq<nat>, batches: seq<seq<Input<C, D>>>,
                               t: nat, value: V)
    requires OutputOk(c, output, done, batches) && t < |done| && done[t] < |batches|
    requires value == Accumulate(c, t, if done[t] > 0 then output[t] else c.zero, batches[done[t]])
    ensures OutputOk(c, output[t := value], done[t := done[t] + 1], batches)
  {
    ExpectedNext(c, batches, done[t], t);
    assert batches[..0] == [];
  }

  // ---------------------------------------------------------------------- the invariant

  ghost predicate Inv<C, D, V>(c: Config<C, D, V>, s: State<C, D, V>) {
    && c.Valid() && Shaped(c, s)
    && AreasOk(s.active, s.areaOf, s.released, s.staged, s.current)
    && QueueOk(s.queue, s.started, s.prepared, s.batches, s.staged, s.areaOf, s.current)
    && (forall b :: 0 <= b < |s.batches| ==> 0 < |s.batches[b]| <= c.batchSize)
    && ContentsOk(s.coeffs, s.src, s.batches, s.areaOf, s.released, s.started, s.prepared, s.staged, s.current)
    && JobOk(c, s.job, s.started, s.processingAdd, s.batches, s.areaOf)
    && WorkOk(c, s.requests, s.done, s.started, s.job, s.batches, s.areaOf)
    && BusyOk(c, s.workers, s.done, s.finished, s.batches, s.areaOf)
    && RefsOk(s.procRefs, s.finished, s.areaOf, s.released, s.started, s.workers)
    && OutputOk(c, s.output, s.done, s.batches)
  }

  lemma AddKeeps<C, D, V>(c: Config<C, D, V>, s: State<C, D, V>, input: Input<C, D>, submit: bool)
    requires Inv(c, s) && Enabled(c, s, Add(input, submit))
    ensures Inv(c, DoAdd(c, s, input, submit))
  {
    hide WorkOk, RefsOk, OutputOk, QueueOk, ContentsOk, AreasOk, BusyOk;
    var s' := DoAdd(c, s, input, submit);
    var staged' := s.staged + [input];
    AreasBounds(s.active, s.areaOf, s.released, s.staged, s.current);
    AreasStage(s.active, s.areaOf, s.released, s.staged, s.current, staged');
    var m := Message(s.current, |s.batches|, |s.staged|, Some(input), submit);
    QueueAdd(s.queue, s.started, s.prepared, s.batches, s.staged, s.areaOf, s.current, m, staged', s'.current);
    ContentsAdd(s.coeffs, s.src, s.batches, s.areaOf, s.released, s.active, s.started, s.prepared, s.staged, s.current,
                input);
    if submit {
      ContentsHandOver(s'.coeffs, s.src, s.batches, s.areaOf, s.released, s.started, s.prepared, staged', s.current,
                       s'.current);
      HandedOver(c, s, staged', s'.current);
    }
  }

  /** What handing over a batch means for the other threads: nothing. */
  lemma HandedOver<C, D, V>(c: Config<C, D, V>, s: State<C, D, V>, batch: seq<Input<C, D>>, next: nat)
    requires Inv(c, s) && !s.active[s.current] && next < c.areas
    ensures var batches, areaOf := s.batches + [batch], s.areaOf + [s.current];
            && AreasOk<C, D>(s.active[s.current := true], areaOf, s.released + [false], [], next)
            && JobOk(c, s.job, s.started, s.processingAdd, batches, areaOf)
            && WorkOk(c, s.requests, s.done, s.started, s.job, batches, areaOf)
            && BusyOk(c, s.workers, s.done, s.finished, batches, areaOf)
            && RefsOk(s.procRefs, s.finished, areaOf, s.released + [false], s.started, s.workers)
            && OutputOk(c, s.output, s.done, batches)
  {
    AreasHandOver(s.active, s.areaOf, s.released, s.staged, s.current, next);
    WorkMore(c, s.requests, s.done, s.started, s.job, s.batches, s.areaOf, batch, s.current);
    RefsMore(s.procRefs, s.finished, s.areaOf, s.released, s.started, s.workers, s.current);
    OutputMore(c, s.output, s.done, s.batches, batch);
  }

  lemma FlushKeeps<C, D, V>(c: Config<C, D, V>, s: State<C, D, V>)
    requires Inv(c, s) && Enabled(c, s, Flush)
    ensures Inv(c, DoFlush(c, s))
  {
    hide WorkOk, RefsOk, OutputOk, QueueOk, ContentsOk, AreasOk, BusyOk;
    var s' := DoFlush(c, s);
    AreasBounds(s.active, s.areaOf, s.released, s.staged, s.current);
    var m: Message<C, D> := Message(s.current, |s.batches|, |s.staged|, None, true);
    QueueAdd(s.queue, s.started, s.prepared, s.batches, s.staged, s.areaOf, s.current, m, s.staged, s'.current);
    ContentsHandOver(s.coeffs, s.src, s.batches, s.areaOf, s.released, s.started, s.prepared, s.staged, s.current,
                     s'.current);
    HandedOver(c, s, s.staged, s'.current);
  }

  /** No tile is ahead of the batches started. */
  lemma TilesBehind<C, D, V>(c: Config<C, D, V>, s: State<C, D, V>, t: nat)
    requires Inv(c, s) && t < c.tiles
    ensures s.finished[t] <= s.done[t] <= Sent(s.started, s.job, t) <= s.started
  {
    if s.finished[t] != s.done[t] {
      assert s.workers[c.owner(t)].request.tile == t;
    }
  }

  /** Starting a batch: its requests are set up, none of them is sent. */
  lemma BatchStarts<C, D, V>(c: Config<C, D, V>, s: State<C, D, V>, j: Job)
    requires Inv(c, s) && s.job == None && s.started < |s.batches|
    requires j == Job(s.areaOf[s.started], s.started, |s.batches[s.started]|, s.processingAdd, 0)
    ensures JobOk(c, Some(j), s.started + 1, true, s.batches, s.areaOf)
    ensures WorkOk(c, s.requests, s.done, s.started + 1, Some(j), s.batches, s.areaOf)
    ensures RefsOk(s.procRefs[j.area := c.tiles], s.finished, s.areaOf, s.released, s.started + 1, s.workers)
  {
    hide WorkOk, RefsOk, OutputOk, QueueOk, ContentsOk, AreasOk, BusyOk;
    AreasBounds(s.active, s.areaOf, s.released, s.staged, s.current);
    WorkStart(c, s.requests, s.done, s.started, j, s.batches, s.areaOf);
    forall t | 0 <= t < c.tiles ensures s.finished[t] <= s.started { TilesBehind(c, s, t); }
    RefsStart(s.procRefs, s.finished, s.areaOf, s.released, s.started, s.workers, c.tiles, s.active, s.staged,
              s.current, s.started + 1);
  }

  lemma TransferKeeps<C, D, V>(c: Config<C, D, V>, s: State<C, D, V>)
    requires Inv(c, s) && Enabled(c, s, Transfer)
    ensures Inv(c, DoTransfer(c, s))
  {
    hide WorkOk, RefsOk, OutputOk, QueueOk, ContentsOk, AreasOk, BusyOk, JobOk;
    var s', m := DoTransfer(c, s), s.queue[0];
    QueuePop(s.queue, s.started, s.prepared, s.batches, s.staged, s.areaOf, s.current);
    MessageFits(c, s);
    ContentsTransfer(s.coeffs, s.src, s.batches, s.areaOf, s.released, s.active, s.started, s.prepared, s.staged,
                     s.current, m);
    if m.submit { BatchStarts(c, s, s'.job.value); }
  }

  lemma MessageFits<C, D, V>(c: Config<C, D, V>, s: State<C, D, V>)
    requires Inv(c, s) && s.queue != []
    ensures var m := s.queue[0];
            && m.batch == s.started && m.index == s.prepared && MessageOk(m, s.batches, s.staged, s.areaOf, s.current)
            && (m.batch < |s.batches| ==> !s.released[m.batch]) && m.area < c.areas
               && (m.input.Some? ==> m.index < c.batchSize)
            && (m.submit ==>
                  s.started < |s.batches| && m.area == s.areaOf[s.started] && Carried(m) == |s.batches[s.started]|)
  {
    hide WorkOk, RefsOk, OutputOk, QueueOk, ContentsOk, AreasOk, BusyOk, JobOk;
    var m := s.queue[0];
    AreasBounds(s.active, s.areaOf, s.released, s.staged, s.current);
    QueueHead(s.queue, s.started, s.prepared, s.batches, s.staged, s.areaOf, s.current);
    if m.batch < |s.batches| {
      NotReleased(s.procRefs, s.finished, s.areaOf, s.released, s.started, s.workers, m.batch); }
  }

  lemma SendKeeps<C, D, V>(c: Config<C, D, V>, s: State<C, D, V>)
    requires Inv(c, s) && Enabled(c, s, Send)
    ensures Inv(c, DoSend(c, s))
  {
    hide WorkOk, RefsOk, OutputOk, QueueOk, ContentsOk, AreasOk, BusyOk;
    WorkSend(c, s.requests, s.done, s.started, s.job.value, s.batches, s.areaOf, s.processingAdd, DoSend(c, s).job);
  }

  lemma BusyCompute<C, D, V>(c: Config<C, D, V>, workers: seq<Worker>, done: seq<nat>, finished: seq<nat>,
                             batches: seq<seq<Input<C, D>>>, areaOf: seq<nat>, w: nat, r: Request)
    requires c.Valid() && |workers| == c.threads && |done| == |finished| == c.tiles
             && BusyOk(c, workers, done, finished, batches, areaOf)
    requires w < c.threads && workers[w] == Idle && r.tile < c.tiles && c.owner(r.tile) == w && r.batch == done[r.tile]
             && RequestOk(r, batches, areaOf)
    ensures finished[r.tile] == done[r.tile]
    ensures BusyOk(c, workers[w := Computed(r)], done[r.tile := done[r.tile] + 1], finished, batches, areaOf)
  {
    assert finished[r.tile] == done[r.tile];
  }

  lemma BusyCountOff<C, D, V>(c: Config<C, D, V>, workers: seq<Worker>, done: seq<nat>, finished: seq<nat>,
                              batches: seq<seq<Input<C, D>>>, areaOf: seq<nat>, w: nat, next: Worker)
    requires c.Valid() && |workers| == c.threads && |done| == |finished| == c.tiles
             && BusyOk(c, workers, done, finished, batches, areaOf)
    requires w < c.threads && workers[w].Computed? && !next.Computed?
    ensures var r := workers[w].request;
            && r.tile < c.tiles && r.batch == finished[r.tile] < done[r.tile] && RequestOk(r, batches, areaOf)
            && BusyOk(c, workers[w := next], done, finished[r.tile := finished[r.tile] + 1], batches, areaOf)
  {
    var r := workers[w].request;
    var finished' := finished[r.tile := finished[r.tile] + 1];
    forall t | 0 <= t < c.tiles
      ensures finished'[t] == done[t]
              || (workers[w := next][c.owner(t)].Computed? && workers[w := next][c.owner(t)].request.tile == t)
    {
      if t != r.tile && finished[t] != done[t] { assert workers[c.owner(t)].request.tile == t; }
    }
  }

  lemma BusyRelease<C, D, V>(c: Config<C, D, V>, workers: seq<Worker>, done: seq<nat>, finished: seq<nat>,
                             batches: seq<seq<Input<C, D>>>, areaOf: seq<nat>, w: nat)
    requires c.Valid() && |workers| == c.threads && |done| == |finished| == c.tiles
             && BusyOk(c, workers, done, finished, batches, areaOf)
    requires w < c.threads && workers[w].Releasing?
    ensures BusyOk(c, workers[w := Idle], done, finished, batches, areaOf)
  {
    forall t | 0 <= t < c.tiles
      ensures finished[t] == done[t]
              || (workers[w := Idle][c.owner(t)].Computed? && workers[w := Idle][c.owner(t)].request.tile == t)
    {
      assert c.owner(t) != w || finished[t] == done[t];
    }
  }

  lemma RefsBusy(procRefs: seq<int>, finished: seq<nat>, areaOf: seq<nat>, released: seq<bool>, started: nat,
                 workers: seq<Worker>, w: nat, r: Request)
    requires |areaOf| == |released| && forall b :: 0 <= b < |areaOf| ==> areaOf[b] < |procRefs|
    requires RefsOk(procRefs, finished, areaOf, released, started, workers) && w < |workers| && workers[w] == Idle
    ensures RefsOk(procRefs, finished, areaOf, released, started, workers[w := Computed(r)])
  {
    var workers' := workers[w := Computed(r)];
    forall v | 0 <= v < |workers'| && workers'[v].Releasing?
      ensures exists b :: Exhausted(workers'[v].area, b, finished, areaOf, released, started) {
      assert workers[v] == workers'[v];
    }
    forall a, b | Exhausted(a, b, finished, areaOf, released, started) ensures ReleasedBy(workers', a) {
      assert ReleasedBy(workers, a);
      var v :| 0 <= v < |workers| && workers[v] == Releasing(a);
      assert workers'[v] == Releasing(a);
    }
  }

  /** A tile that still needs batch b keeps the batch from being released. */
  lemma StillOpen(procRefs: seq<int>, finished: seq<nat>, areaOf: seq<nat>, released: seq<bool>, started: nat,
                  workers: seq<Worker>, b: nat, t: nat)
    requires |areaOf| == |released| && forall b :: 0 <= b < |areaOf| ==> areaOf[b] < |procRefs|
    requires RefsOk(procRefs, finished, areaOf, released, started, workers) && b < |areaOf| && t < |finished|
             && finished[t] <= b
    ensures !released[b]
  {
    if released[b] { OpenZero(finished, b, t); }
  }

  /** The area of a started batch that is not released holds exactly its inputs. */
  lemma AreaHolds<C, D>(coeffs: seq<seq<Option<C>>>, src: seq<seq<Option<D>>>, batches: seq<seq<Input<C, D>>>,
                        areaOf: seq<nat>,
                        released: seq<bool>, started: nat, prepared: nat, staged: seq<Input<C, D>>, current: nat,
                        b: nat)
    requires |batches| == |areaOf| == |released| && |coeffs| == |src| && current < |src|
             && forall b :: 0 <= b < |areaOf| ==> areaOf[b] < |src|
    requires ContentsOk(coeffs, src, batches, areaOf, released, started, prepared, staged, current) && b < started
             && b < |batches| && !released[b]
    ensures |batches[b]| <= |coeffs[areaOf[b]]| && |batches[b]| <= |src[areaOf[b]]|
    ensures Stored(coeffs[areaOf[b]], src[areaOf[b]], |batches[b]|) == Some(batches[b])
  {
    StoredHeld(coeffs[areaOf[b]], src[areaOf[b]], batches[b], |batches[b]|);
    assert batches[b][..|batches[b]|] == batches[b];
  }

  lemma HeadOk<C, D, V>(c: Config<C, D, V>, requests: seq<seq<Request>>, done: seq<nat>, started: nat, job: Option<Job>,
                        batches: seq<seq<Input<C, D>>>, areaOf: seq<nat>, w: nat)
    requires |done| == c.tiles && WorkOk(c, requests, done, started, job, batches, areaOf) && w < |requests|
             && requests[w] != []
    ensures var r := requests[w][0];
            && r.tile < c.tiles && c.owner(r.tile) == w && r.batch == done[r.tile] && RequestOk(r, batches, areaOf)
               && r.batch < started
  {
    assert ThreadOk(c, w, requests[w], done, started, job, batches, areaOf);
    HeadIsNext(c, w, requests[w], done, started, job, batches, areaOf);
  }

  lemma OutputBound<C, D, V>(c: Config<C, D, V>, output: seq<V>, done: seq<nat>, batches: seq<seq<Input<C, D>>>, t: nat)
    requires OutputOk(c, output, done, batches) && t < |done|
    ensures |output| == |done| && done[t] <= |batches|
  {}

  lemma ComputeKeeps<C, D, V>(c: Config<C, D, V>, s: State<C, D, V>, w: nat)
    requires Inv(c, s) && Enabled(c, s, Compute(w))
    ensures Inv(c, DoCompute(c, s, w))
  {
    hide WorkOk, RefsOk, OutputOk, QueueOk, ContentsOk, AreasOk, BusyOk, JobOk, Accumulate, Stored;
    var r := s.requests[w][0];
    AreasBounds(s.active, s.areaOf, s.released, s.staged, s.current);
    HeadOk(c, s.requests, s.done, s.started, s.job, s.batches, s.areaOf, w);
    WorkTake(c, s.requests, s.done, s.started, s.job, s.batches, s.areaOf, w);
    BusyCompute(c, s.workers, s.done, s.finished, s.batches, s.areaOf, w, r);
    StillOpen(s.procRefs, s.finished, s.areaOf, s.released, s.started, s.workers, r.batch, r.tile);
    RefsBusy(s.procRefs, s.finished, s.areaOf, s.released, s.started, s.workers, w, r);
    AreaHolds(s.coeffs, s.src, s.batches, s.areaOf, s.released, s.started, s.prepared, s.staged, s.current, r.batch);
    OutputCompute(c, s.output, s.done, s.batches, r.tile, Computation(c, s, r));
  }

  /** What a worker computes: it adds the inputs of the batch that its tile needs next, starting from zero with the
      first batch, and touches no other tile. */
  lemma ComputeAdds<C, D, V>(c: Config<C, D, V>, s: State<C, D, V>, w: nat)
    requires Inv(c, s) && Enabled(c, s, Compute(w))
    ensures var r := s.requests[w][0];
            && r.batch == s.done[r.tile] && r.batch < |s.batches| && c.owner(r.tile) == w
            && DoCompute(c, s, w).output
                 == s.output[r.tile :=
                             Accumulate(c, r.tile, if r.batch > 0 then s.output[r.tile]
                                        else c.zero, s.batches[r.batch])]
  {
    hide WorkOk, RefsOk, OutputOk, QueueOk, ContentsOk, AreasOk, BusyOk, JobOk, Accumulate, Stored;
    var r := s.requests[w][0];
    AreasBounds(s.active, s.areaOf, s.released, s.staged, s.current);
    HeadOk(c, s.requests, s.done, s.started, s.job, s.batches, s.areaOf, w);
    BusyCompute(c, s.workers, s.done, s.finished, s.batches, s.areaOf, w, r);
    StillOpen(s.procRefs, s.finished, s.areaOf, s.released, s.started, s.workers, r.batch, r.tile);
    AreaHolds(s.coeffs, s.src, s.batches, s.areaOf, s.released, s.started, s.prepared, s.staged, s.current, r.batch);
  }

  lemma CountOffKeeps<C, D, V>(c: Config<C, D, V>, s: State<C, D, V>, w: nat)
    requires Inv(c, s) && Enabled(c, s, CountOff(w))
    ensures Inv(c, DoCountOff(c, s, w))
  {
    hide WorkOk, RefsOk, OutputOk, QueueOk, ContentsOk, AreasOk, BusyOk, JobOk;
    var s', r := DoCountOff(c, s, w), s.workers[w].request;
    AreasBounds(s.active, s.areaOf, s.released, s.staged, s.current);
    BusyCountOff(c, s.workers, s.done, s.finished, s.batches, s.areaOf, w, s'.workers[w]);
    TilesBehind(c, s, r.tile);
    OutputBound(c, s.output, s.done, s.batches, r.tile);
    StartedBound(c, s);
    RefsCountOff(s.procRefs, s.finished, s.areaOf, s.released, s.started, s.workers, s.active, s.staged, s.current, w,
                 r.tile);
  }

  lemma StartedBound<C, D, V>(c: Config<C, D, V>, s: State<C, D, V>)
    requires Inv(c, s)
    ensures s.started <= |s.batches|
  {
    hide WorkOk, RefsOk, OutputOk, QueueOk, ContentsOk, AreasOk, BusyOk;
  }

  lemma ContentsRelease<C, D>(coeffs: seq<seq<Option<C>>>, src: seq<seq<Option<D>>>, batches: seq<seq<Input<C, D>>>,
                              areaOf: seq<nat>,
                              released: seq<bool>, released': seq<bool>, started: nat, prepared: nat,
                              staged: seq<Input<C, D>>, current: nat)
    requires |batches| == |areaOf| == |released| && |coeffs| == |src| && current < |src|
             && forall b :: 0 <= b < |areaOf| ==> areaOf[b] < |src|
    requires ContentsOk(coeffs, src, batches, areaOf, released, started, prepared, staged, current)
    requires |released'| == |released| && forall b :: 0 <= b < |released| && released[b] ==> released'[b]
    ensures ContentsOk(coeffs, src, batches, areaOf, released', started, prepared, staged, current)
  {}

  lemma ReleaseKeeps<C, D, V>(c: Config<C, D, V>, s: State<C, D, V>, w: nat)
    requires Inv(c, s) && Enabled(c, s, Release(w))
    ensures Inv(c, DoRelease(c, s, w))
  {
    hide WorkOk, RefsOk, OutputOk, QueueOk, ContentsOk, AreasOk, BusyOk, JobOk;
    var released', a := DoRelease(c, s, w).released, s.workers[w].area;
    AreasBounds(s.active, s.areaOf, s.released, s.staged, s.current);
    AreasRelease(s.active, s.areaOf, s.released, released', s.staged, s.current, a);
    BusyRelease(c, s.workers, s.done, s.finished, s.batches, s.areaOf, w);
    RefsRelease(s.procRefs, s.finished, s.areaOf, s.released, released', s.started, s.workers, s.active, s.staged,
                s.current, w, a);
    ContentsRelease(s.coeffs, s.src, s.batches, s.areaOf, s.released, released', s.started, s.prepared, s.staged,
                    s.current);
  }

  lemma StepKeeps<C, D, V>(c: Config<C, D, V>, s: State<C, D, V>, action: Action<C, D>)
    requires Inv(c, s) && Enabled(c, s, action)
    ensures Inv(c, Step(c, s, action))
  {
    hide Inv, Enabled;
    match action
    case Add(input, submit) => AddKeeps(c, s, input, submit);
    case Flush => FlushKeeps(c, s);
    case Transfer => TransferKeeps(c, s);
    case Send => SendKeeps(c, s);
    case Compute(w) => ComputeKeeps(c, s, w);
    case CountOff(w) => CountOffKeeps(c, s, w);
    case Release(w) => ReleaseKeeps(c, s, w);
  }

  // ---------------------------------------------------------------------- runs

  /** Nothing staged, nothing active; the output memory holds anything. */
  function Initial<C, D, V>(c: Config<C, D, V>, output: seq<V>): State<C, D, V>
    requires c.Valid() && |output| == c.tiles
  {
    State(0, [], seq(c.areas, _ => false), seq(c.areas, _ => 0), seq(c.areas, _ => seq(c.batchSize, _ => None)),
          seq(c.areas, _ => seq(c.batchSize, _ => None)),
          [], None, false, seq(c.threads, _ => []), seq(c.threads, _ => Idle), output,
          [], [], 0, 0, seq(c.tiles, _ => 0), seq(c.tiles, _ => 0), [])
  }

  lemma InitialKeeps<C, D, V>(c: Config<C, D, V>, output: seq<V>)
    requires c.Valid() && |output| == c.tiles
    ensures Inv(c, Initial(c, output))
  {
    var s := Initial(c, output);
    forall w | 0 <= w < c.threads
      ensures ThreadOk(c, w, s.requests[w], s.done, s.started, s.job, s.batches, s.areaOf) {}
  }

  /** A run: each action is enabled where it happens. */
  ghost predicate Runs<C(!new), D(!new), V(!new)>(c: Config<C, D, V>, s: State<C, D, V>, actions: seq<Action<C, D>>,
                                                  s': State<C, D, V>)
    requires c.Valid()
    decreases |actions|
  {
    if actions == [] then s' == s
    else
      var k := |actions| - 1;
      exists m :: Runs(c, s, actions[..k], m) && Enabled(c, m, actions[k]) && s' == Step(c, m, actions[k])
  }

  ghost predicate Reachable<C(!new), D(!new), V(!new)>(c: Config<C, D, V>, actions: seq<Action<C, D>>,
      s: State<C, D, V>) {
    c.Valid() && exists output :: |output| == c.tiles && Runs(c, Initial(c, output), actions, s)
  }

  lemma {:induction false} RunKeeps<C(!new), D(!new), V(!new)>(c: Config<C, D, V>, s: State<C, D, V>,
      actions: seq<Action<C, D>>, s': State<C, D, V>)
    requires c.Valid() && Inv(c, s) && Runs(c, s, actions, s')
    ensures Inv(c, s')
    decreases |actions|
  {
    hide Inv, Enabled, Step;
    if actions != [] {
      var k := |actions| - 1;
      var m :| Runs(c, s, actions[..k], m) && Enabled(c, m, actions[k]) && s' == Step(c, m, actions[k]);
      RunKeeps(c, s, actions[..k], m);
      StepKeeps(c, m, actions[k]);
    }
  }

  /** The invariant holds in every state of every run. */
  lemma ReachableInv<C(!new), D(!new), V(!new)>(c: Config<C, D, V>, actions: seq<Action<C, D>>, s: State<C, D, V>)
    requires Reachable(c, actions, s)
    ensures Inv(c, s)
  {
    hide Inv;
    var output :| |output| == c.tiles && Runs(c, Initial(c, output), actions, s);
    InitialKeeps(c, output);
    RunKeeps(c, Initial(c, output), actions, s);
  }

  // ---------------------------------------------------------------------- no area is refilled while it is in use

  /** Some request for the area is still to be sent, queued, or computed but not counted off. */
  ghost predicate InUse<C, D, V>(s: State<C, D, V>, a: nat) {
    || (s.job.Some? && s.job.value.area == a)
    || (exists w, i :: 0 <= w < |s.requests| && 0 <= i < |s.requests[w]| && s.requests[w][i].area == a)
    || (exists w :: 0 <= w < |s.workers| && s.workers[w].Computed? && s.workers[w].request.area == a)
  }

  /** An area in use is occupied by a batch that has been started and not been released. */
  lemma InUseOccupied<C, D, V>(c: Config<C, D, V>, s: State<C, D, V>, a: nat)
    requires Inv(c, s) && InUse(s, a)
    ensures exists b :: 0 <= b < s.started && b < |s.areaOf| && !s.released[b] && s.areaOf[b] == a
  {
    hide QueueOk, ContentsOk, OutputOk;
    var b: nat, t: nat;
    if s.job.Some? && s.job.value.area == a {
      b, t := s.job.value.batch, s.job.value.next;
    } else if w, i :| 0 <= w < |s.requests| && 0 <= i < |s.requests[w]| && s.requests[w][i].area == a {
      assert ThreadOk(c, w, s.requests[w], s.done, s.started, s.job, s.batches, s.areaOf);
      b, t := s.requests[w][i].batch, s.requests[w][i].tile;
    } else {
      var w :| 0 <= w < |s.workers| && s.workers[w].Computed? && s.workers[w].request.area == a;
      b, t := s.workers[w].request.batch, s.workers[w].request.tile;
    }
    TilesBehind(c, s, t);
    StillOpen(s.procRefs, s.finished, s.areaOf, s.released, s.started, s.workers, b, t);
  }

  lemma FreeArea<C, D, V>(c: Config<C, D, V>, s: State<C, D, V>, a: nat)
    requires Inv(c, s) && forall b :: 0 <= b < s.started && b < |s.areaOf| && !s.released[b] ==> s.areaOf[b] != a
    ensures !InUse(s, a)
  {
    hide QueueOk, ContentsOk, OutputOk, WorkOk, BusyOk, RefsOk, InUse;
    if InUse(s, a) { InUseOccupied(c, s, a); }
  }

  /** Whenever the caller or the transfer thread writes to an area, no request for it is outstanding. */
  lemma NoRefill<C(!new), D(!new), V(!new)>(c: Config<C, D, V>, actions: seq<Action<C, D>>, s: State<C, D, V>,
                                            action: Action<C, D>)
    requires Reachable(c, actions, s) && Enabled(c, s, action)
    ensures action.Add? ==> !InUse(s, s.current)
    ensures action.Transfer? && s.queue[0].input.Some? ==> !InUse(s, s.queue[0].area)
  {
    hide QueueOk, ContentsOk, OutputOk, WorkOk, BusyOk, RefsOk, InUse;
    ReachableInv(c, actions, s);
    if action.Add? {
      FreeArea(c, s, s.current);
    } else if action.Transfer? && s.queue[0].input.Some? {
      MessageFits(c, s);
      forall b | 0 <= b < s.started && b < |s.areaOf| && !s.released[b] ensures s.areaOf[b] != s.queue[0].area {
        OtherArea(s.active, s.areaOf, s.released, s.staged, s.current, s.queue[0].batch, b);
      }
      FreeArea(c, s, s.queue[0].area);
    }
  }

  // ---------------------------------------------------------------------- one release per batch

  /** A release is for one batch, all of whose requests have been counted off; no other thread is about
      to release the same area, and afterwards exactly that batch has become released. */
  lemma ReleasedOnce<C(!new), D(!new), V(!new)>(c: Config<C, D, V>, actions: seq<Action<C, D>>, s: State<C, D, V>,
                                                w: nat) returns (b: nat)
    requires Reachable(c, actions, s) && Enabled(c, s, Release(w))
    ensures b < s.started && b < |s.released| && !s.released[b] && s.areaOf[b] == s.workers[w].area
            && !InUse(s, s.areaOf[b])
    ensures forall t :: 0 <= t < c.tiles ==> s.finished[t] > b
    ensures forall v :: 0 <= v < c.threads && s.workers[v] == Releasing(s.workers[w].area) ==> v == w
    ensures DoRelease(c, s, w).released == s.released[b := true]
  {
    hide QueueOk, ContentsOk, OutputOk, WorkOk, BusyOk, InUse;
    ReachableInv(c, actions, s);
    b :| Exhausted(s.workers[w].area, b, s.finished, s.areaOf, s.released, s.started);
    forall t | 0 <= t < c.tiles ensures s.finished[t] > b { OpenZero(s.finished, b, t); }
    ExhaustedNotInUse(c, s, b);
    OnlyOne(s.active, s.areaOf, s.released, s.staged, s.current, b, DoRelease(c, s, w).released);
  }

  lemma OnlyOne<C, D>(active: seq<bool>, areaOf: seq<nat>, released: seq<bool>, staged: seq<Input<C, D>>, current: nat,
                      b: nat, released': seq<bool>)
    requires AreasOk(active, areaOf, released, staged, current) && b < |areaOf| && !released[b]
             && |released'| == |released|
    requires forall k :: 0 <= k < |released| ==> released'[k] == (released[k] || areaOf[k] == areaOf[b])
    ensures released' == released[b := true]
  {}

  lemma ExhaustedNotInUse<C, D, V>(c: Config<C, D, V>, s: State<C, D, V>, b: nat)
    requires Inv(c, s) && b < |s.areaOf| && Exhausted(s.areaOf[b], b, s.finished, s.areaOf, s.released, s.started)
    ensures !InUse(s, s.areaOf[b])
  {
    hide QueueOk, ContentsOk, OutputOk;
    var a := s.areaOf[b];
    forall j | s.job == Some(j) ensures j.area != a {
      NotExhausted(c, s, b, j.batch, j.next);
    }
    forall w, i | 0 <= w < |s.requests| && 0 <= i < |s.requests[w]| ensures s.requests[w][i].area != a {
      assert ThreadOk(c, w, s.requests[w], s.done, s.started, s.job, s.batches, s.areaOf);
      NotExhausted(c, s, b, s.requests[w][i].batch, s.requests[w][i].tile);
    }
    forall w | 0 <= w < |s.workers| && s.workers[w].Computed? ensures s.workers[w].request.area != a {
      NotExhausted(c, s, b, s.workers[w].request.batch, s.workers[w].request.tile);
    }
  }

  /** A batch that some tile still needs is not the exhausted batch, so it has another area. */
  lemma NotExhausted<C, D, V>(c: Config<C, D, V>, s: State<C, D, V>, b: nat, b': nat, t: nat)
    requires Inv(c, s) && b < |s.areaOf| && Exhausted(s.areaOf[b], b, s.finished, s.areaOf, s.released, s.started)
    requires b' < |s.areaOf| && t < c.tiles && s.finished[t] <= b'
    ensures s.areaOf[b'] != s.areaOf[b]
  {
    hide QueueOk, ContentsOk, OutputOk, WorkOk, BusyOk;
    OpenZero(s.finished, b, t);
    StillOpen(s.procRefs, s.finished, s.areaOf, s.released, s.started, s.workers, b', t);
  }

  // ---------------------------------------------------------------------- the result

  /** No thread has anything left to do. */
  ghost predicate Quiescent<C, D, V>(s: State<C, D, V>) {
    && s.queue == [] && s.job == None
    && (forall w :: 0 <= w < |s.requests| ==> s.requests[w] == [])
    && (forall w :: 0 <= w < |s.workers| ==> s.workers[w] == Idle)
  }

  lemma QuiescentTile<C, D, V>(c: Config<C, D, V>, s: State<C, D, V>, t: nat)
    requires Inv(c, s) && Quiescent(s) && t < c.tiles
    ensures s.finished[t] == s.done[t] == |s.batches|
  {
    hide ContentsOk, OutputOk, RefsOk, AreasOk;
    var w := c.owner(t);
    assert ThreadOk(c, w, s.requests[w], s.done, s.started, s.job, s.batches, s.areaOf);
    assert !Waiting(s.requests[w], s.done[t], t);
  }

  lemma QuiescentReleased<C, D, V>(c: Config<C, D, V>, s: State<C, D, V>, b: nat)
    requires Inv(c, s) && Quiescent(s) && b < |s.batches|
    ensures s.released[b]
  {
    hide ContentsOk, OutputOk, WorkOk, BusyOk;
    forall t | 0 <= t < |s.finished| ensures s.finished[t] > b { QuiescentTile(c, s, t); }
    OpenNone(s.finished, b);
    assert !ReleasedBy(s.workers, s.areaOf[b]);
    assert !Exhausted(s.areaOf[b], b, s.finished, s.areaOf, s.released, s.started);
  }

  /** The inputs that the caller has added, in order. */
  function Added<C, D>(actions: seq<Action<C, D>>): seq<Input<C, D>> {
    if actions == [] then []
    else
      var k := |actions| - 1;
      Added(actions[..k]) + match actions[k] case Add(input, _) => [input] case _ => []
  }

  function Received<C, D, V>(s: State<C, D, V>): seq<Input<C, D>> {
    Flatten(s.batches) + s.staged
  }

  lemma FlattenAppend<T>(batches: seq<seq<T>>, batch: seq<T>)
    ensures Flatten(batches + [batch]) == Flatten(batches) + batch
  {
    assert (batches + [batch])[..|batches|] == batches;
  }

  lemma StepReceives<C, D, V>(c: Config<C, D, V>, s: State<C, D, V>, action: Action<C, D>)
    requires c.Valid() && Enabled(c, s, action)
    ensures Received(Step(c, s, action)) == Received(s) + match action case Add(input, _) => [input] case _ => []
  {
    match action
    case Add(input, submit) =>
      FlattenAppend(s.batches, s.staged + [input]);
      assert Flatten(s.batches) + (s.staged + [input]) == Received(s) + [input];
    case Flush => FlattenAppend(s.batches, s.staged);
    case _ =>
  }

  /** No input is lost, repeated or reordered between the caller and the batches. */
  lemma {:induction false} RunReceives<C(!new), D(!new), V(!new)>(c: Config<C, D, V>, s: State<C, D, V>,
      actions: seq<Action<C, D>>, s': State<C, D, V>)
    requires c.Valid() && Runs(c, s, actions, s') && Received(s) == []
    ensures Received(s') == Added(actions)
    decreases |actions|
  {
    hide Enabled, Step, Received;
    if actions != [] {
      var k := |actions| - 1;
      var m :| Runs(c, s, actions[..k], m) && Enabled(c, m, actions[k]) && s' == Step(c, m, actions[k]);
      RunReceives(c, s, actions[..k], m);
      StepReceives(c, m, actions[k]);
    }
  }

  /** When all threads have come to rest and nothing is left staged, every area is free and every tile
      holds the sum of coefficient times input over all inputs added, whatever it held at first. */
  lemma Result<C(!new), D(!new), V(!new)>(c: Config<C, D, V>, actions: seq<Action<C, D>>, s: State<C, D, V>)
    requires Reachable(c, actions, s) && Quiescent(s) && s.staged == []
    ensures Shaped(c, s) && forall a :: 0 <= a < c.areas ==> !s.active[a]
    ensures Added(actions) != [] ==> forall t :: 0 <= t < c.tiles ==>
            s.output[t] == Accumulate(c, t, c.zero, Added(actions))
  {
    hide ContentsOk, RefsOk, WorkOk, BusyOk, QueueOk, JobOk, Accumulate;
    ReachableInv(c, actions, s);
    var output :| |output| == c.tiles && Runs(c, Initial(c, output), actions, s);
    RunReceives(c, Initial(c, output), actions, s);
    assert Flatten(s.batches) == Added(actions);
    forall b: nat | b < |s.batches| ensures s.released[b] { QuiescentReleased(c, s, b); }
    if Added(actions) != [] {
      forall t: nat | t < c.tiles ensures s.output[t] == Accumulate(c, t, c.zero, Added(actions)) {
        QuiescentTile(c, s, t);
        assert s.batches[..|s.batches|] == s.batches;
      }
    }
  }

  // ---------------------------------------------------------------------- progress

  lemma ReleasingBound<C, D, V>(c: Config<C, D, V>, s: State<C, D, V>, w: nat)
    requires Inv(c, s) && w < c.threads && s.workers[w].Releasing?
    ensures s.workers[w].area < c.areas
  {
    hide ContentsOk, QueueOk, OutputOk, WorkOk, BusyOk;
    var b :| Exhausted(s.workers[w].area, b, s.finished, s.areaOf, s.released, s.started);
  }

  /** A worker that has anything to do can do it. */
  lemma WorkerCanAct<C, D, V>(c: Config<C, D, V>, s: State<C, D, V>, w: nat)
    requires Inv(c, s) && w < c.threads
    ensures s.workers[w].Computed? ==> Enabled(c, s, CountOff(w))
    ensures s.workers[w].Releasing? ==> Enabled(c, s, Release(w))
    ensures s.workers[w] == Idle && s.requests[w] != [] ==> Enabled(c, s, Compute(w))
  {
    hide ContentsOk, QueueOk, OutputOk, WorkOk, RefsOk;
    if s.workers[w].Releasing? { ReleasingBound(c, s, w); }
    if s.requests[w] != [] { HeadOk(c, s.requests, s.done, s.started, s.job, s.batches, s.areaOf, w); }
  }

  lemma TransferCanAct<C, D, V>(c: Config<C, D, V>, s: State<C, D, V>)
    requires Inv(c, s)
    ensures s.job.Some? ==> Enabled(c, s, Send)
    ensures s.job == None && s.queue != [] ==> Enabled(c, s, Transfer)
  {
    hide ContentsOk, QueueOk, OutputOk, WorkOk, RefsOk, AreasOk, BusyOk;
    if s.queue != [] { MessageFits(c, s); }
  }

  /** No deadlock: as long as some thread has anything to do, some thread can act; and the caller can
      only be kept waiting while that is so. */
  lemma Progress<C(!new), D(!new), V(!new)>(c: Config<C, D, V>, actions: seq<Action<C, D>>, s: State<C, D, V>)
    requires Reachable(c, actions, s)
    ensures !Quiescent(s) ==> exists action: Action<C, D> :: !action.Add? && !action.Flush? && Enabled(c, s, action)
    ensures Quiescent(s) ==> Shaped(c, s) && !s.active[s.current]
  {
    hide ContentsOk, QueueOk, OutputOk, WorkOk, RefsOk, BusyOk, Enabled, JobOk;
    ReachableInv(c, actions, s);
    TransferCanAct(c, s);
    forall w: nat | w < c.threads
      ensures s.workers[w].Computed? ==> Enabled(c, s, CountOff(w))
      ensures s.workers[w].Releasing? ==> Enabled(c, s, Release(w))
      ensures s.workers[w] == Idle && s.requests[w] != [] ==> Enabled(c, s, Compute(w))
    {
      WorkerCanAct(c, s, w);
    }
    if !Quiescent(s) {
      if s.job.Some? {
        assert Enabled(c, s, Send);
      } else if s.queue != [] {
        assert Enabled(c, s, Transfer);
      } else if w :| 0 <= w < c.threads && s.workers[w] != Idle {
        assert Enabled(c, s, CountOff(w)) || Enabled(c, s, Release(w));
      } else {
        var w :| 0 <= w < c.threads && s.requests[w] != [];
        assert Enabled(c, s, Compute(w));
      }
    } else {
      forall b: nat | b < |s.batches| ensures s.released[b] { QuiescentReleased(c, s, b); }
    }
  }

  // ---------------------------------------------------------------------- coming to rest

  /** The sum of the weights of a list. */
  function Weigh<T>(weight: T -> nat, xs: seq<T>): nat {
    if xs == [] then 0 else Weigh(weight, xs[..|xs| - 1]) + weight(xs[|xs| - 1])
  }

  lemma {:induction false} WeighUpdate<T>(weight: T -> nat, xs: seq<T>, i: nat, x: T)
    requires i < |xs|
    ensures Weigh(weight, xs[i := x]) + weight(xs[i]) == Weigh(weight, xs) + weight(x)
  {
    var k := |xs| - 1;
    var ys := xs[i := x];
    if i < k {
      WeighUpdate(weight, xs[..k], i, x);
      assert ys[..k] == xs[..k][i := x];
    } else {
      assert ys[..k] == xs[..k];
    }
  }

  function RequestsWeight(queue: seq<Request>): nat { 3 * |queue| }

  function WorkerWeight(worker: Worker): nat {
    match worker
    case Idle => 0
    case Computed(_) => 2
    case Releasing(_) => 1
  }

  function JobWeight(tiles: nat, job: Option<Job>): nat {
    if job.Some? && job.value.next <= tiles then 4 * (tiles - job.value.next) else 0
  }

  /** How many steps the threads can still take without the caller. */
  function Remaining<C, D, V>(c: Config<C, D, V>, s: State<C, D, V>): nat {
    Prod(|s.queue|, 4 * c.tiles + 1) + JobWeight(c.tiles, s.job)
    + Weigh(RequestsWeight, s.requests) + Weigh(WorkerWeight, s.workers)
  }

  predicate ByCaller<C, D>(action: Action<C, D>) { action.Add? || action.Flush? }

  /** Every step of a thread uses some of it up. */
  lemma StepSettles<C, D, V>(c: Config<C, D, V>, s: State<C, D, V>, action: Action<C, D>)
    requires c.Valid() && Enabled(c, s, action) && !ByCaller(action)
    ensures Remaining(c, Step(c, s, action)) < Remaining(c, s)
  {
    hide Weigh, Computation;
    match action
    case Transfer =>
    case Send =>
      var w, j := c.owner(s.job.value.next), s.job.value;
      WeighUpdate(RequestsWeight, s.requests, w, s.requests[w] + [Request(j.area, j.batch, j.next, j.inputs, j.add)]);
    case Compute(w) =>
      WeighUpdate(RequestsWeight, s.requests, w, s.requests[w][1..]);
      WeighUpdate(WorkerWeight, s.workers, w, Computed(s.requests[w][0]));
    case CountOff(w) =>
      WeighUpdate(WorkerWeight, s.workers, w, DoCountOff(c, s, w).workers[w]);
    case Release(w) =>
      WeighUpdate(WorkerWeight, s.workers, w, Idle);
  }

  /** Without the caller no run is longer than that. */
  lemma {:induction false} RunSettles<C(!new), D(!new), V(!new)>(c: Config<C, D, V>, s: State<C, D, V>,
      actions: seq<Action<C, D>>, s': State<C, D, V>)
    requires c.Valid() && Runs(c, s, actions, s') && forall i :: 0 <= i < |actions| ==> !ByCaller(actions[i])
    ensures Remaining(c, s') + |actions| <= Remaining(c, s)
    decreases |actions|
  {
    hide Enabled, Step, Remaining;
    if actions != [] {
      var k := |actions| - 1;
      var m :| Runs(c, s, actions[..k], m) && Enabled(c, m, actions[k]) && s' == Step(c, m, actions[k]);
      RunSettles(c, s, actions[..k], m);
      StepSettles(c, m, actions[k]);
    }
  }

  lemma OneMoreStep<C(!new), D(!new), V(!new)>(c: Config<C, D, V>, s: State<C, D, V>, actions: seq<Action<C, D>>,
                                               m: State<C, D, V>, action: Action<C, D>)
    requires c.Valid() && Runs(c, s, actions, m) && Enabled(c, m, action)
    ensures Runs(c, s, actions + [action], Step(c, m, action))
  {
    hide Enabled, Step;
    assert (actions + [action])[..|actions|] == actions;
  }

  lemma ReachableStep<C(!new), D(!new), V(!new)>(c: Config<C, D, V>, actions: seq<Action<C, D>>, s: State<C, D, V>,
                                                 action: Action<C, D>)
    requires Reachable(c, actions, s) && Enabled(c, s, action)
    ensures Reachable(c, actions + [action], Step(c, s, action))
  {
    hide Enabled, Step, Runs;
    var output :| |output| == c.tiles && Runs(c, Initial(c, output), actions, s);
    OneMoreStep(c, Initial(c, output), actions, s, action);
  }

  /** From every state the threads come to rest, in whatever order they take their steps: a run without the caller that
      cannot be continued has ended at rest. */
  lemma Rests<C(!new), D(!new), V(!new)>(c: Config<C, D, V>, actions: seq<Action<C, D>>, s: State<C, D, V>)
    returns (more: seq<Action<C, D>>, s': State<C, D, V>)
    requires Reachable(c, actions, s)
    ensures |more| <= Remaining(c, s) && Runs(c, s, more, s') && Quiescent(s')
    ensures Reachable(c, actions + more, s') && Added(actions + more) == Added(actions)
  {
    hide Enabled, Step, Runs, Reachable, Added, Quiescent, Remaining;
    more, s' := [], s;
    NoSteps(c, actions, s);
    while !Quiescent(s')
      invariant Reachable(c, actions + more, s') && Runs(c, s, more, s')
      invariant Remaining(c, s') + |more| <= Remaining(c, s)
      invariant Added(actions + more) == Added(actions)
      decreases Remaining(c, s')
    {
      Progress(c, actions + more, s');
      var action: Action<C, D> :| !action.Add? && !action.Flush? && Enabled(c, s', action);
      IsValid(c, actions + more, s');
      StepSettles(c, s', action);
      OneMoreStep(c, s, more, s', action);
      ReachableStep(c, actions + more, s', action);
      NothingAdded(actions + more, action);
      assert actions + (more + [action]) == (actions + more) + [action];
      more, s' := more + [action], Step(c, s', action);
    }
  }

  lemma NoSteps<C(!new), D(!new), V(!new)>(c: Config<C, D, V>, actions: seq<Action<C, D>>, s: State<C, D, V>)
    requires Reachable(c, actions, s)
    ensures actions + [] == actions && c.Valid() && Runs(c, s, [], s)
  {}

  lemma IsValid<C(!new), D(!new), V(!new)>(c: Config<C, D, V>, actions: seq<Action<C, D>>, s: State<C, D, V>)
    requires Reachable(c, actions, s)
    ensures c.Valid()
  {}

  lemma NothingAdded<C, D>(actions: seq<Action<C, D>>, action: Action<C, D>)
    requires !action.Add?
    ensures Added(actions + [action]) == Added(actions)
  {
    assert (actions + [action])[..|actions|] == actions;
  }
}
