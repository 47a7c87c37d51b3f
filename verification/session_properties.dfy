/** Properties that relate several session operations: FIFO order of the
    ring wrappers, how the subscription table fills and is reset, and the
    path from a received window to a message block fetched from RX. */
module SessionProperties {
  import opened Protocol
  import opened Serializer
  import opened RingBuffer
  import opened Session

  /** The ring wrappers are first-in first-out: after a successful store,
      fetching the old contents and then the new data hands them back in
      that order and empties the ring. */
  lemma {:induction false} StoreFetchFifo(ring: Ring, data: seq<byte>)
    requires ring.Valid() && 0 < |ring.contents|
    requires StoreToRing(ring, data).0 == 0
    ensures var stored := StoreToRing(ring, data).1;
            var first := FetchFromRing(stored, |ring.contents|);
            var second := FetchFromRing(first.ring, |data|);
            && first.ret == 0 && first.out == ring.contents
            && second.ret == 0 && second.out == data
            && second.ring.contents == []
  {
    var stored := StoreToRing(ring, data).1;
    assert stored.contents == ring.contents + data;
    var first := FetchFromRing(stored, |ring.contents|);
    assert first.out == stored.contents[..|ring.contents|];
    assert first.ring.contents == data;
  }

  /** A store that does not fit still changes the ring: the bytes that fit
      are appended and the ring is left full. */
  lemma {:induction false} FailedStoreIsPartial(ring: Ring, data: seq<byte>)
    requires ring.Valid()
    requires ring.Space() < |data|
    ensures StoreToRing(ring, data).0 == -ENOSPC
    ensures 0 < ring.Space() ==> StoreToRing(ring, data).1 != ring
  {
    var r := StoreToRing(ring, data);
    if 0 < ring.Space() {
      assert |r.1.contents| > |ring.contents|;
    }
  }

  /** Registering the same command twice succeeds twice and takes two
      slots: the table does not keep one subscription per command. */
  lemma {:induction false} DuplicateRegistrationAccepted(command: uint32, sem1: SemRef, sem2: SemRef)
    requires sem1 != NULL_SEM && sem2 != NULL_SEM
    ensures var h0 := Init().handle;
            var r1 := WaitForCommand(h0, command, sem1);
            var r2 := WaitForCommand(r1.handle, command, sem2);
            && r1.ret == 0 && r2.ret == 0
            && r2.handle.numOfSubscribers == 2
            && r2.handle.subscriptions[0].command == command
            && r2.handle.subscriptions[1].command == command
  {
  }

  /** Applies `wait_for_command` to each request in turn. */
  ghost function RegisterAll(h: Handle, reqs: seq<Subscription>): (h': Handle)
    requires WellSized(h)
    ensures WellSized(h')
    decreases |reqs|
  {
    if |reqs| == 0 then h
    else RegisterAll(WaitForCommand(h, reqs[0].command, reqs[0].listenerSem).handle, reqs[1..])
  }

  /** From any valid handle, registering requests with non-null semaphores
      fills the free slots in order and then stops: the count ends at the
      smaller of the table size and the number of requests added to the
      old count, and never exceeds MAX_SUBSCRIBERS. */
  lemma {:induction false} RegistrationFillsInOrder(h: Handle, reqs: seq<Subscription>)
    requires Valid(h)
    requires forall k :: 0 <= k < |reqs| ==> reqs[k].listenerSem != NULL_SEM
    ensures var h' := RegisterAll(h, reqs);
            && Valid(h')
            && h'.numOfSubscribers == Min(h.numOfSubscribers + |reqs|, MAX_SUBSCRIBERS)
            && (forall i :: 0 <= i < h.numOfSubscribers ==> h'.subscriptions[i] == h.subscriptions[i])
            && (forall i :: h.numOfSubscribers <= i < h'.numOfSubscribers ==>
                  h'.subscriptions[i] == reqs[i - h.numOfSubscribers])
            && h'.rx == h.rx && h'.tx == h.tx
    decreases |reqs|
  {
    if |reqs| > 0 {
      var r := WaitForCommand(h, reqs[0].command, reqs[0].listenerSem);
      RegistrationFillsInOrder(r.handle, reqs[1..]);
      if h.numOfSubscribers < MAX_SUBSCRIBERS {
        var h' := RegisterAll(h, reqs);
        forall i | h.numOfSubscribers <= i < h'.numOfSubscribers
          ensures h'.subscriptions[i] == reqs[i - h.numOfSubscribers]
        {
          if i > h.numOfSubscribers {
            assert reqs[1..][i - r.handle.numOfSubscribers] == reqs[i - h.numOfSubscribers];
          }
        }
      }
    }
  }

  /** After deinit the table accepts registrations again, starting over at slot 0. */
  lemma {:induction false} DeinitReopensTable(h: Handle, command: uint32, sem: SemRef)
    requires Valid(h)
    requires sem != NULL_SEM
    ensures var r := WaitForCommand(Deinit(h).handle, command, sem);
            && r.ret == 0
            && r.handle.numOfSubscribers == 1
            && r.handle.subscriptions[0] == Subscription(command, sem)
            && r.handle.rx == h.rx && r.handle.tx == h.tx
  {
  }

  /** On a session fresh from init, an accepted window can be read back from
      RX as one block that carries the decoded message, leaving RX empty. */
  lemma {:induction false} ReceivedMessageCanBeFetched(raw: seq<byte>, scratch: MsgStruct)
    requires |raw| == MAX_ATT_SIZE
    requires WellSizedStruct(scratch)
    requires Decode(raw).Success?
    ensures var r := OnBleMessage(Init().handle, raw, scratch);
            var f := FetchFromRing(r.handle.rx, MSG_STRUCT_SIZE);
            && r.ret == 0
            && f.ret == 0
            && CarriesMessage(f.out, Decode(raw).value)
            && f.ring.contents == []
  {
    var h := Init().handle;
    var r := OnBleMessage(h, raw, scratch);
    assert r.ret == 0;
    assert r.handle.rx.contents[|h.rx.contents|..] == r.handle.rx.contents;
  }
}
