// clib/kfifo.c shared by one producer and one consumer without a lock. A step is
// what lies between two memory barriers, except that every single byte copied is
// a step of its own and the bytes of one memcpy are copied in any order. Each
// side computes its length from a counter the other may since have advanced.
module KfifoProtocol {
  import opened Bits
  import opened MinMax
  import opened Ring

  datatype Producer = Rest | Writing(data: seq<Byte>, len: nat, todo: set<nat>)
  datatype Consumer = Rest | Reading(got: seq<Byte>, len: nat, todo: set<nat>)

  // accepted and delivered record the bytes of the completed calls.
  datatype State = State(
    buf: seq<Byte>, inPos: nat, outPos: nat,
    producer: Producer, consumer: Consumer,
    accepted: seq<Byte>, delivered: seq<Byte>)

  datatype Action =
    | PutBegin(data: seq<Byte>)
    | PutCopy(i: nat)
    | PutEnd
    | GetBegin(scratch: seq<Byte>)
    | GetCopy(i: nat)
    | GetEnd

  // The slot at which the copies of a call at counter pos start.
  function Start(pos: nat, size: nat): nat {
    BitAnd(pos, if size > 0 then size - 1 else 0)
  }

  // The index the copies use for the i-th of len bytes at counter pos
  // (clib/kfifo.c:64-67 and 81-84).
  function CopyIndex(pos: nat, len: nat, i: nat, size: nat): int {
    var start := Start(pos, size);
    var l := if len > size - start then size - start else len;
    if i < l then start + i else i - l
  }

  // Where control stands: a itself may be the next step of its side.
  predicate Next(s: State, a: Action) {
    match a
    case PutBegin(data) => s.producer.Rest? && |data| < WORD
    case PutCopy(i) => s.producer.Writing? && i in s.producer.todo
    case PutEnd => s.producer.Writing? && s.producer.todo == {}
    case GetBegin(scratch) => s.consumer.Rest? && |scratch| < WORD
    case GetCopy(i) => s.consumer.Reading? && i in s.consumer.todo
    case GetEnd => s.consumer.Reading? && s.consumer.todo == {}
  }

  // The step touches no memory outside the buffer and the caller's bytes.
  predicate InBounds(s: State, a: Action)
    requires Next(s, a)
  {
    match a
    case PutCopy(i) =>
      i < |s.producer.data| && 0 <= CopyIndex(s.inPos, s.producer.len, i, |s.buf|) < |s.buf|
    case PutEnd => s.producer.len <= |s.producer.data|
    case GetCopy(i) =>
      i < |s.consumer.got| && 0 <= CopyIndex(s.outPos, s.consumer.len, i, |s.buf|) < |s.buf|
    case GetEnd => s.consumer.len <= |s.consumer.got|
    case _ => true
  }

  predicate Enabled(s: State, a: Action) {
    Next(s, a) && InBounds(s, a)
  }

  function Upto(n: nat): (r: set<nat>)
    ensures forall i: nat :: i in r <==> i < n
  {
    if n == 0 then {} else Upto(n - 1) + {n - 1}
  }

  function Apply(s: State, a: Action): State
    requires Enabled(s, a)
  {
    match a
    case PutBegin(data) =>
      var len := Min(|data|, Wrap(|s.buf| - s.inPos + s.outPos));
      s.(producer := Writing(data, len, Upto(len)))
    case PutCopy(i) =>
      var p := s.producer;
      s.(buf := s.buf[CopyIndex(s.inPos, p.len, i, |s.buf|) := p.data[i]], producer := p.(todo := p.todo - {i}))
    case PutEnd =>
      var p := s.producer;
      s.(inPos := Wrap(s.inPos + p.len), producer := Producer.Rest, accepted := s.accepted + p.data[..p.len])
    case GetBegin(scratch) =>
      var len := Min(|scratch|, Wrap(s.inPos - s.outPos));
      s.(consumer := Reading(scratch, len, Upto(len)))
    case GetCopy(i) =>
      var c := s.consumer;
      var b := s.buf[CopyIndex(s.outPos, c.len, i, |s.buf|)];
      s.(consumer := c.(got := c.got[i := b], todo := c.todo - {i}))
    case GetEnd =>
      var c := s.consumer;
      s.(outPos := Wrap(s.outPos + c.len), consumer := Consumer.Rest, delivered := s.delivered + c.got[..c.len])
  }

  ghost predicate Initial(s: State) {
    && (|s.buf| == 0 || IsSize(|s.buf|)) && s.inPos == s.outPos == 0
    && s.producer.Rest? && s.consumer.Rest? && s.accepted == [] && s.delivered == []
  }

  // Every published, undelivered byte is in its slot.
  ghost predicate Stored(s: State) {
    |s.buf| >= 1 &&
    forall k: nat :: |s.delivered| <= k < |s.accepted| ==> s.buf[Slot(k, |s.buf|)] == s.accepted[k]
  }

  // What the producer wrote so far is in the slots after the published bytes,
  // and these slots are free whatever the consumer does meanwhile.
  ghost predicate ProducerOk(s: State) {
    s.producer.Writing? && |s.buf| >= 1 ==>
      var p := s.producer;
      && p.len <= |p.data| && |s.accepted| + p.len <= |s.delivered| + |s.buf|
      && (forall i :: i in p.todo ==> i < p.len)
      && (forall i: nat :: i < p.len && i !in p.todo ==> s.buf[Slot(|s.accepted| + i, |s.buf|)] == p.data[i])
  }

  ghost predicate ConsumerOk(s: State) {
    s.consumer.Reading? ==>
      var c := s.consumer;
      && c.len <= |c.got| && |s.delivered| + c.len <= |s.accepted|
      && (forall i :: i in c.todo ==> i < c.len)
      && (forall i: nat :: i < c.len && i !in c.todo ==> c.got[i] == s.accepted[|s.delivered| + i])
  }

  ghost predicate Counters(s: State) {
    && IsSize(|s.buf|)
    && s.inPos == Wrap(|s.accepted|) && s.outPos == Wrap(|s.delivered|)
    && |s.delivered| <= |s.accepted| <= |s.delivered| + |s.buf|
  }

  ghost predicate Sound(s: State) {
    Counters(s) && s.delivered <= s.accepted && Stored(s) && ProducerOk(s) && ConsumerOk(s)
  }

  // Nothing moves through a buffer of size 0.
  ghost predicate Idle(s: State) {
    && s.inPos == s.outPos == 0 && s.accepted == s.delivered == []
    && (s.producer.Writing? ==> s.producer.len == 0 && s.producer.todo == {})
    && (s.consumer.Reading? ==> s.consumer.len == 0 && s.consumer.todo == {})
  }

  ghost predicate Inv(s: State) {
    if |s.buf| == 0 then Idle(s) else Sound(s)
  }

  lemma CopyIndexIsSlot(total: nat, len: nat, i: nat, size: nat)
    requires IsSize(size) && i < len <= size
    ensures CopyIndex(Wrap(total), len, i, size) == Slot(total + i, size)
  {
    MaskIsSlot(total, size);
    NextSlots(total, i, size);
  }

  // The slot written is not that of any published, undelivered byte.
  lemma WriteIsFree(s: State, i: nat)
    requires Sound(s) && Enabled(s, PutCopy(i))
    ensures var index := CopyIndex(s.inPos, s.producer.len, i, |s.buf|);
            && index == Slot(|s.accepted| + i, |s.buf|)
            && (forall k: nat :: |s.delivered| <= k < |s.accepted| + s.producer.len && k != |s.accepted| + i ==>
                 index != Slot(k, |s.buf|))
  {
    var n, p := |s.accepted|, s.producer;
    assert i < p.len;
    CopyIndexIsSlot(n, p.len, i, |s.buf|);
    forall k: nat | |s.delivered| <= k < n + p.len && k != n + i
      ensures Slot(n + i, |s.buf|) != Slot(k, |s.buf|)
    {
      if k < n + i {
        SlotsDiffer(k, n + i, |s.buf|);
      } else {
        SlotsDiffer(n + i, k, |s.buf|);
      }
    }
  }

  lemma PutCopyKeepsStored(s: State, i: nat)
    requires Sound(s) && Enabled(s, PutCopy(i))
    ensures Stored(Apply(s, PutCopy(i)))
  {
    WriteIsFree(s, i);
  }

  lemma PutCopyKeepsProducer(s: State, i: nat)
    requires Sound(s) && Enabled(s, PutCopy(i))
    ensures ProducerOk(Apply(s, PutCopy(i)))
  {
    WriteIsFree(s, i);
    var n, p, size := |s.accepted|, s.producer, |s.buf|;
    var b := Apply(s, PutCopy(i)).buf;
    forall j: nat | j < p.len && j !in p.todo - {i}
      ensures b[Slot(n + j, size)] == p.data[j]
    {
      if j != i {
        assert Slot(n + i, size) != Slot(n + j, size);
        assert s.buf[Slot(n + j, size)] == p.data[j];
      }
    }
  }

  lemma PutCopyKeepsInv(s: State, i: nat)
    requires Sound(s) && Enabled(s, PutCopy(i))
    ensures Sound(Apply(s, PutCopy(i)))
  {
    PutCopyKeepsStored(s, i);
    PutCopyKeepsProducer(s, i);
  }

  lemma PutEndKeepsInv(s: State)
    requires Sound(s) && Enabled(s, PutEnd)
    ensures Sound(Apply(s, PutEnd))
  {
    var t, p := Apply(s, PutEnd), s.producer;
    WrapSum(|s.accepted|, p.len);
    assert Stored(t) by {
      forall k: nat | |t.delivered| <= k < |t.accepted|
        ensures t.buf[Slot(k, |t.buf|)] == t.accepted[k]
      {
        PublishedByte(s, k);
      }
    }
  }

  lemma PublishedByte(s: State, k: nat)
    requires Sound(s) && Enabled(s, PutEnd) && |s.delivered| <= k < |s.accepted| + s.producer.len
    ensures s.buf[Slot(k, |s.buf|)] == (s.accepted + s.producer.data[..s.producer.len])[k]
  {
  }

  lemma GetCopyKeepsInv(s: State, i: nat)
    requires Sound(s) && Enabled(s, GetCopy(i))
    ensures Sound(Apply(s, GetCopy(i)))
  {
    assert i < s.consumer.len;
    CopyIndexIsSlot(|s.delivered|, s.consumer.len, i, |s.buf|);
  }

  lemma GotIsNext(s: State)
    requires Sound(s) && Enabled(s, GetEnd)
    ensures var r, len := |s.delivered|, s.consumer.len;
            r + len <= |s.accepted| && s.consumer.got[..len] == s.accepted[r..r + len]
  {
  }

  lemma GetEndKeepsInv(s: State)
    requires Sound(s) && Enabled(s, GetEnd)
    ensures Sound(Apply(s, GetEnd))
    ensures Apply(s, GetEnd).delivered == s.accepted[..|s.delivered| + s.consumer.len]
  {
    var t := Apply(s, GetEnd);
    var r, len := |s.delivered|, s.consumer.len;
    GotIsNext(s);
    WrapSum(r, len);
    assert s.accepted[..r + len] == s.accepted[..r] + s.accepted[r..r + len];
    assert t.delivered <= t.accepted;
  }

  lemma BeginKeepsInv(s: State, a: Action)
    requires Sound(s) && Enabled(s, a) && (a.PutBegin? || a.GetBegin?)
    ensures Sound(Apply(s, a))
  {
    WrapDifference(|s.delivered|, |s.accepted|, |s.buf|);
    WrapDifference(|s.accepted|, |s.delivered|, 0);
  }

  // Every step of either side keeps the invariant, in whatever state of its
  // call the other side is.
  lemma StepKeepsInv(s: State, a: Action)
    requires Inv(s) && Enabled(s, a)
    ensures Inv(Apply(s, a))
  {
    if |s.buf| == 0 {
      return;
    }
    match a
    case PutBegin(_) => BeginKeepsInv(s, a);
    case PutCopy(i) => PutCopyKeepsInv(s, i);
    case PutEnd => PutEndKeepsInv(s);
    case GetBegin(_) => BeginKeepsInv(s, a);
    case GetCopy(i) => GetCopyKeepsInv(s, i);
    case GetEnd => GetEndKeepsInv(s);
  }

  // No step of the code ever reaches outside the buffers.
  lemma NextIsInBounds(s: State, a: Action)
    requires Inv(s) && Next(s, a)
    ensures Enabled(s, a)
  {
    match a
    case PutCopy(i) => CopyIndexIsSlot(|s.accepted|, s.producer.len, i, |s.buf|);
    case GetCopy(i) => CopyIndexIsSlot(|s.delivered|, s.consumer.len, i, |s.buf|);
    case _ =>
  }

  // A run is the sequence of states that an interleaving passes through.
  ghost predicate IsRun(run: seq<State>, actions: seq<Action>) {
    && |run| == |actions| + 1 && Initial(run[0])
    && forall i :: 0 <= i < |actions| ==> Enabled(run[i], actions[i]) && run[i + 1] == Apply(run[i], actions[i])
  }

  lemma {:induction false} RunKeepsInv(run: seq<State>, actions: seq<Action>, i: nat)
    requires IsRun(run, actions) && i < |run|
    ensures Inv(run[i])
  {
    if i > 0 {
      RunKeepsInv(run, actions, i - 1);
      assert run[i - 1 + 1] == Apply(run[i - 1], actions[i - 1]);
      StepKeepsInv(run[i - 1], actions[i - 1]);
    }
  }

  // In every interleaving the consumer's output is a prefix of the producer's
  // input, at most a buffer behind; no byte is written to the slot of an unread
  // one; and no access leaves the buffers.
  lemma EveryRunIsSafe(run: seq<State>, actions: seq<Action>, i: nat)
    requires IsRun(run, actions) && i < |run|
    ensures run[i].delivered <= run[i].accepted
    ensures |run[i].accepted| <= |run[i].delivered| + |run[i].buf|
    ensures forall a :: Next(run[i], a) ==> InBounds(run[i], a)
    ensures i < |actions| && actions[i].PutCopy? ==>
              |run[i].buf| > 0 &&
              var index := CopyIndex(run[i].inPos, run[i].producer.len, actions[i].i, |run[i].buf|);
              forall k: nat :: |run[i].delivered| <= k < |run[i].accepted| ==> index != Slot(k, |run[i].buf|)
  {
    RunKeepsInv(run, actions, i);
    forall a | Next(run[i], a)
      ensures InBounds(run[i], a)
    {
      NextIsInBounds(run[i], a);
    }
    if i < |actions| && actions[i].PutCopy? {
      WriteIsFree(run[i], actions[i].i);
    }
  }

  // The bytes published but not yet delivered.
  function Queue(s: State): seq<Byte>
    requires |s.delivered| <= |s.accepted|
  {
    s.accepted[|s.delivered|..]
  }

  // They lie in the buffer from outPos on, around its end.
  lemma QueueInBuffer(s: State, i: nat)
    requires Inv(s) && i < |Queue(s)|
    ensures |s.buf| > 0 && Queue(s)[i] == s.buf[(s.outPos + i) % |s.buf|]
  {
    var k := |s.delivered| + i;
    assert s.accepted[k] == s.buf[Slot(k, |s.buf|)];
    WrapKeepsSlot(|s.delivered|, i, |s.buf|);
  }

  // A call of kfifo_put that will publish n bytes of data is under way.
  ghost predicate Puts(s: State, data: seq<Byte>, n: nat) {
    s.producer.Writing? && s.producer.data == data && s.producer.len == n
  }

  // A call of kfifo_get for m bytes that will deliver n is under way.
  ghost predicate Gets(s: State, m: nat, n: nat) {
    s.consumer.Reading? && |s.consumer.got| == m && s.consumer.len == n
  }

  lemma BeginFixesLength(s: State, a: Action)
    requires Inv(s) && Enabled(s, a)
    ensures a.PutBegin? ==> Puts(Apply(s, a), a.data, Min(|a.data|, |s.buf| - |Queue(s)|))
    ensures a.GetBegin? ==> Gets(Apply(s, a), |a.scratch|, Min(|a.scratch|, |Queue(s)|))
  {
    if |s.buf| > 0 {
      WrapDifference(|s.delivered|, |s.accepted|, |s.buf|);
      WrapDifference(|s.accepted|, |s.delivered|, 0);
    }
  }

  lemma QueueFits(s: State)
    requires Inv(s)
    ensures |s.delivered| <= |s.accepted| && |Queue(s)| <= |s.buf|
  {
  }

  // What the end of a call of kfifo_get delivers is the front of the queue.
  lemma GetEndTakesFront(s: State)
    requires Inv(s) && Enabled(s, GetEnd)
    ensures s.consumer.len <= |Queue(s)| && s.consumer.len <= |s.consumer.got|
    ensures s.consumer.got[..s.consumer.len] == Queue(s)[..s.consumer.len]
  {
    if |s.buf| > 0 {
      GotIsNext(s);
    }
  }

  // Each step is a step of an atomic bounded queue: beginning fixes how many
  // bytes the call will move, publishing appends that many of what the call was
  // given, delivering takes that many from the front; nothing else changes.
  lemma RefinesQueue(s: State, a: Action)
    requires Inv(s) && Enabled(s, a)
    ensures var t := Apply(s, a);
            && |t.delivered| <= |t.accepted|
            && |Queue(t)| <= |t.buf| == |s.buf|
            && match a
               case PutEnd => Queue(t) == Queue(s) + s.producer.data[..s.producer.len]
               case GetEnd => s.consumer.len <= |Queue(s)| &&
                              t.delivered == s.delivered + Queue(s)[..s.consumer.len] &&
                              Queue(t) == Queue(s)[s.consumer.len..]
               case _ => Queue(t) == Queue(s) && t.delivered == s.delivered
    ensures a.PutBegin? ==> Puts(Apply(s, a), a.data, Min(|a.data|, |s.buf| - |Queue(s)|))
    ensures a.GetBegin? ==> Gets(Apply(s, a), |a.scratch|, Min(|a.scratch|, |Queue(s)|))
  {
    StepKeepsInv(s, a);
    QueueFits(s);
    QueueFits(Apply(s, a));
    BeginFixesLength(s, a);
    if a.GetEnd? {
      GetEndTakesFront(s);
    }
  }

  // Only its own end ends a call, and only that publishes or delivers.
  lemma CallGoesOn(s: State, a: Action)
    requires Enabled(s, a)
    ensures !a.PutEnd? ==> Apply(s, a).accepted == s.accepted
    ensures !a.PutEnd? && s.producer.Writing? ==> Puts(Apply(s, a), s.producer.data, s.producer.len)
    ensures !a.GetEnd? ==> Apply(s, a).delivered == s.delivered
    ensures !a.GetEnd? && s.consumer.Reading? ==> Gets(Apply(s, a), |s.consumer.got|, s.consumer.len)
  {
  }

  lemma {:induction false} PutUnderWay(run: seq<State>, actions: seq<Action>, b: nat, e: nat)
    requires IsRun(run, actions) && b < e < |run| && actions[b].PutBegin?
    requires forall i :: b < i < e ==> !actions[i].PutEnd?
    ensures Inv(run[b]) && run[e].accepted == run[b].accepted
    ensures var data := actions[b].data; Puts(run[e], data, Min(|data|, |run[b].buf| - |Queue(run[b])|))
  {
    RunKeepsInv(run, actions, b);
    assert run[e - 1 + 1] == Apply(run[e - 1], actions[e - 1]);
    CallGoesOn(run[e - 1], actions[e - 1]);
    if b < e - 1 {
      PutUnderWay(run, actions, b, e - 1);
    } else {
      RefinesQueue(run[b], actions[b]);
    }
  }

  // A call of kfifo_put publishes the first min(request, free) bytes of what it
  // was given, with free as it was when the call began.
  lemma PutPublishes(run: seq<State>, actions: seq<Action>, b: nat, e: nat)
    requires IsRun(run, actions) && b < e < |actions| && actions[b].PutBegin? && actions[e].PutEnd?
    requires forall i :: b < i < e ==> !actions[i].PutEnd?
    ensures Inv(run[b])
    ensures var data := actions[b].data;
            var n := Min(|data|, |run[b].buf| - |Queue(run[b])|);
            n <= |data| && run[e + 1].accepted == run[b].accepted + data[..n]
  {
    PutUnderWay(run, actions, b, e);
    RunKeepsInv(run, actions, e);
    assert run[e + 1] == Apply(run[e], actions[e]);
  }

  lemma {:induction false} GetUnderWay(run: seq<State>, actions: seq<Action>, b: nat, e: nat)
    requires IsRun(run, actions) && b < e < |run| && actions[b].GetBegin?
    requires forall i :: b < i < e ==> !actions[i].GetEnd?
    ensures Inv(run[b]) && run[e].delivered == run[b].delivered
    ensures var m := |actions[b].scratch|; Gets(run[e], m, Min(m, |Queue(run[b])|))
  {
    RunKeepsInv(run, actions, b);
    assert run[e - 1 + 1] == Apply(run[e - 1], actions[e - 1]);
    CallGoesOn(run[e - 1], actions[e - 1]);
    if b < e - 1 {
      GetUnderWay(run, actions, b, e - 1);
    } else {
      RefinesQueue(run[b], actions[b]);
    }
  }

  // A call of kfifo_get delivers min(request, held) bytes from the front, with
  // held as it was when the call began.
  lemma GetDelivers(run: seq<State>, actions: seq<Action>, b: nat, e: nat)
    requires IsRun(run, actions) && b < e < |actions| && actions[b].GetBegin? && actions[e].GetEnd?
    requires forall i :: b < i < e ==> !actions[i].GetEnd?
    ensures Inv(run[b]) && Inv(run[e])
    ensures var n := Min(|actions[b].scratch|, |Queue(run[b])|);
            n <= |Queue(run[e])| && run[e + 1].delivered == run[b].delivered + Queue(run[e])[..n]
  {
    GetUnderWay(run, actions, b, e);
    RunKeepsInv(run, actions, e);
    assert run[e + 1] == Apply(run[e], actions[e]);
    RefinesQueue(run[e], actions[e]);
  }
}
