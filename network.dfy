/**
 * The request discipline of Network::Request (globals.h): GET requests wait in
 * one first-in first-out queue whose head is the only GET on the wire, while
 * POST and PATCH requests go out at once and never touch the queue. The
 * transport itself (QNetworkAccessManager, replies, callbacks) is not modelled;
 * a request is "sent" when it is appended to the `sent` log.
 */
module Network {

  datatype Verb = Get | Post | Patch

  /** One call of Network::Request: where it goes and with which method. */
  datatype Call = Call(url: string, verb: Verb)

  /** The GET requests among `calls`, in order. */
  function Gets(calls: seq<Call>): (r: seq<Call>)
    ensures |r| <= |calls|
    ensures forall i :: 0 <= i < |r| ==> r[i].verb == Get
  {
    if calls == [] then []
    else (if calls[0].verb == Get then [calls[0]] else []) + Gets(calls[1..])
  }

  /** Filtering distributes over concatenation. */
  lemma {:induction false} GetsAppend(a: seq<Call>, b: seq<Call>)
    ensures Gets(a + b) == Gets(a) + Gets(b)
  {
    if a == [] {
      assert a + b == b;
    } else {
      assert (a + b)[0] == a[0];
      assert (a + b)[1..] == a[1..] + b;
      GetsAppend(a[1..], b);
    }
  }

  /**
   * The queue holds exactly the GETs that have not finished, and the GETs on
   * the wire are the finished ones plus the queue head: they started in
   * request order and at most one is outstanding.
   */
  predicate Coherent(queue: seq<Call>, sent: seq<Call>, requested: seq<Call>, finished: nat) {
    && (forall i :: 0 <= i < |requested| ==> requested[i].verb == Get)
    && finished <= |requested|
    && queue == requested[finished..]
    && Gets(sent) == requested[..finished + (if queue == [] then 0 else 1)]
  }

  /** A GET joins the back of the queue, and goes on the wire only when the queue was empty. */
  lemma GetKeepsCoherent(queue: seq<Call>, sent: seq<Call>, requested: seq<Call>, finished: nat, call: Call)
    requires Coherent(queue, sent, requested, finished) && call.verb == Get
    ensures Coherent(queue + [call], sent + (if queue == [] then [call] else []), requested + [call], finished)
  {
    var r := requested + [call];
    assert r[finished..] == queue + [call];
    if queue == [] {
      GetsAppend(sent, [call]);
      assert Gets([call]) == [call];
      assert |requested| == finished && requested[..finished] == requested;
      assert r[..finished + 1] == r;
    } else {
      assert sent + [] == sent;
      assert r[..finished + 1] == requested[..finished + 1];
    }
  }

  /** A POST or PATCH goes on the wire at once and leaves the queue as it was. */
  lemma OtherKeepsCoherent(queue: seq<Call>, sent: seq<Call>, requested: seq<Call>, finished: nat, call: Call)
    requires Coherent(queue, sent, requested, finished) && call.verb != Get
    ensures Coherent(queue, sent + [call], requested, finished)
  {
    GetsAppend(sent, [call]);
    assert Gets([call]) == [];
    assert Gets(sent) + [] == Gets(sent);
  }

  /** When the GET on the wire finishes, the next queued GET, if any, goes on the wire. */
  lemma CompleteKeepsCoherent(queue: seq<Call>, sent: seq<Call>, requested: seq<Call>, finished: nat)
    requires Coherent(queue, sent, requested, finished) && queue != []
    ensures Coherent(queue[1..], sent + (if |queue| > 1 then [queue[1]] else []), requested, finished + 1)
  {
    if |queue| > 1 {
      var next := queue[1];
      GetsAppend(sent, [next]);
      assert next == requested[finished + 1];
      assert Gets([next]) == [next];
      assert requested[..finished + 2] == requested[..finished + 1] + [next];
    } else {
      assert sent + [] == sent;
    }
  }

  /** The static queue of Network::Request and the wire it feeds. */
  class Sequencer {
    /** The queued GET requests; the head, when there is one, is on the wire. */
    var queue: seq<Call>
    /** Every request handed to the network manager, in the order it was sent. */
    var sent: seq<Call>
    /** Every GET ever requested, in request order. */
    ghost var requested: seq<Call>
    /** How many GET requests have finished. */
    ghost var finished: nat

    ghost predicate Valid()
      reads this
    {
      Coherent(queue, sent, requested, finished)
    }

    constructor ()
      ensures Valid() && queue == [] && sent == [] && requested == []
    {
      queue, sent := [], [];
      requested, finished := [], 0;
    }

    /**
     * Network::Request: a GET is sent straight away only when the queue is
     * empty, and is queued either way; POST and PATCH are sent and leave the
     * queue alone.
     */
    method Request(call: Call)
      requires Valid()
      modifies this
      ensures Valid()
      ensures call.verb == Get ==> queue == old(queue) + [call]
      ensures call.verb == Get ==> sent == old(sent) + (if old(queue) == [] then [call] else [])
      ensures call.verb == Get ==> requested == old(requested) + [call]
      ensures call.verb != Get ==> queue == old(queue) && sent == old(sent) + [call]
      ensures call.verb != Get ==> requested == old(requested)
      ensures finished == old(finished)
    {
      if call.verb == Get {
        GetKeepsCoherent(queue, sent, requested, finished, call);
        if |queue| == 0 {
          sent := sent + [call];
        }
        queue := queue + [call];
        requested := requested + [call];
      } else {
        OtherKeepsCoherent(queue, sent, requested, finished, call);
        sent := sent + [call];
      }
    }

    /**
     * The reply of the GET on the wire has finished: it leaves the queue and the
     * next queued GET, if any, is sent.
     */
    method Complete()
      requires Valid() && queue != []
      modifies this
      ensures Valid()
      ensures queue == old(queue)[1..]
      ensures sent == old(sent) + (if queue == [] then [] else [queue[0]])
      ensures requested == old(requested) && finished == old(finished) + 1
    {
      CompleteKeepsCoherent(queue, sent, requested, finished);
      queue := queue[1..];
      finished := finished + 1;
      if |queue| > 0 {
        sent := sent + [queue[0]];
      }
    }
  }

  /** The GET on the wire is the queue head, and no other GET is outstanding. */
  lemma InFlightIsHead(s: Sequencer)
    requires s.Valid() && s.queue != []
    ensures |Gets(s.sent)| == s.finished + 1
    ensures Gets(s.sent)[s.finished] == s.queue[0]
  {
  }

  /** With an empty queue every GET that was sent has finished. */
  lemma IdleMeansNothingOutstanding(s: Sequencer)
    requires s.Valid() && s.queue == []
    ensures |Gets(s.sent)| == s.finished == |s.requested|
  {
  }
}
