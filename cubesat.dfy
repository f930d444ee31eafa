/**
 * The CubeSat mailbox of cubesat/src/main.rs: a ground station posts
 * messages into a shared mailbox, and each satellite takes out the
 * earliest message addressed to it.
 */
module CubeSatMail {
  import opened Wrappers

  type u64 = x: int | 0 <= x < 0x1_0000_0000_0000_0000

  datatype Message = Message(to: u64, content: string)

  /** The index of the earliest message addressed to `id`, if any. */
  function FirstFor(ms: seq<Message>, id: u64): (r: Option<nat>)
    ensures r.Some? ==> r.value < |ms| && ms[r.value].to == id
    ensures r.Some? ==> forall j :: 0 <= j < r.value ==> ms[j].to != id
    ensures r.None? <==> forall j :: 0 <= j < |ms| ==> ms[j].to != id
  {
    if ms == [] then None
    else if ms[0].to == id then Some(0)
    else
      var rest := FirstFor(ms[1..], id);
      assert forall j :: 1 <= j < |ms| ==> ms[j] == ms[1..][j - 1];
      if rest.None? then None else Some(rest.value + 1)
  }

  /**
   * What `deliver` hands out and what stays queued: the earliest message for
   * `id` taken out of the queue, or nothing taken when there is none.
   */
  function Delivered(ms: seq<Message>, id: u64): (r: (Option<Message>, seq<Message>))
    ensures r.0.Some? ==> r.0.value.to == id && |r.1| == |ms| - 1
    ensures r.0.None? <==> forall j :: 0 <= j < |ms| ==> ms[j].to != id
    ensures r.0.None? ==> r.1 == ms
    ensures r.0.Some? ==>
      FirstFor(ms, id).Some? && r.0.value == ms[FirstFor(ms, id).value]
      && r.1 == ms[..FirstFor(ms, id).value] + ms[FirstFor(ms, id).value + 1..]
  {
    match FirstFor(ms, id)
    case None => (None, ms)
    case Some(i) => (Some(ms[i]), ms[..i] + ms[i + 1..])
  }

  /** The messages addressed to `id`, in queue order. */
  function Inbox(ms: seq<Message>, id: u64): seq<Message> {
    if ms == [] then []
    else (if ms[0].to == id then [ms[0]] else []) + Inbox(ms[1..], id)
  }

  lemma {:induction false} InboxAppend(a: seq<Message>, b: seq<Message>, id: u64)
    ensures Inbox(a + b, id) == Inbox(a, id) + Inbox(b, id)
  {
    if a == [] {
      assert a + b == b;
    } else {
      var head := if a[0].to == id then [a[0]] else [];
      assert (a + b)[0] == a[0];
      assert (a + b)[1..] == a[1..] + b;
      InboxAppend(a[1..], b, id);
      assert Inbox(a + b, id) == head + Inbox(a[1..] + b, id);
      assert Inbox(a, id) == head + Inbox(a[1..], id);
    }
  }

  lemma {:induction false} InboxNone(ms: seq<Message>, id: u64)
    requires forall j :: 0 <= j < |ms| ==> ms[j].to != id
    ensures Inbox(ms, id) == []
  {
    if ms != [] {
      assert forall j :: 0 <= j < |ms[1..]| ==> ms[1..][j] == ms[j + 1];
      InboxNone(ms[1..], id);
    }
  }

  /** `post` adds the message to the end of its recipient's inbox and to no other. */
  lemma InboxPost(ms: seq<Message>, msg: Message, id: u64)
    ensures Inbox(ms + [msg], id) == Inbox(ms, id) + (if msg.to == id then [msg] else [])
  {
    InboxAppend(ms, [msg], id);
    assert [msg][1..] == [];
  }

  /** The inbox of any recipient, split around position `i`, before and after removing that position. */
  lemma InboxAround(ms: seq<Message>, i: nat, id: u64)
    requires i < |ms|
    ensures Inbox(ms, id) == Inbox(ms[..i], id) + Inbox([ms[i]], id) + Inbox(ms[i + 1..], id)
    ensures Inbox(ms[..i] + ms[i + 1..], id) == Inbox(ms[..i], id) + Inbox(ms[i + 1..], id)
  {
    assert ms == ms[..i] + [ms[i]] + ms[i + 1..];
    InboxAppend(ms[..i] + [ms[i]], ms[i + 1..], id);
    InboxAppend(ms[..i], [ms[i]], id);
    InboxAppend(ms[..i], ms[i + 1..], id);
  }

  /**
   * Per-recipient FIFO: delivering to `id` hands out the head of the inbox of
   * `id` and leaves the rest of that inbox; when the inbox of `id` is empty
   * nothing is handed out.
   */
  lemma DeliveredInbox(ms: seq<Message>, id: u64)
    ensures var (m, rest) := Delivered(ms, id);
      && (m.None? <==> Inbox(ms, id) == [])
      && (m.Some? ==> m.value == Inbox(ms, id)[0] && Inbox(rest, id) == Inbox(ms, id)[1..])
  {
    match FirstFor(ms, id)
    case None =>
      InboxNone(ms, id);
    case Some(i) =>
      InboxAround(ms, i, id);
      InboxNone(ms[..i], id);
      assert [ms[i]][1..] == [];
      assert Inbox([ms[i]], id) == [ms[i]];
  }

  /** Delivering to `id` leaves the inbox of every other recipient as it was. */
  lemma DeliveredOtherInbox(ms: seq<Message>, id: u64, other: u64)
    requires other != id
    ensures Inbox(Delivered(ms, id).1, other) == Inbox(ms, other)
  {
    match FirstFor(ms, id)
    case None =>
    case Some(i) =>
      InboxAround(ms, i, other);
      assert [ms[i]][1..] == [];
      assert Inbox([ms[i]], other) == [];
  }

  /**
   * The queue after a delivery, with the delivered message put back at the
   * position of the earliest match, is the queue before: the messages before
   * and after it keep their places and their relative order.
   */
  lemma DeliveredKeepsOrder(ms: seq<Message>, id: u64)
    ensures var (m, rest) := Delivered(ms, id);
      m.Some? ==> var i := FirstFor(ms, id).value;
        && i <= |rest| && rest[..i] == ms[..i] && rest[i..] == ms[i + 1..]
        && rest[..i] + [m.value] + rest[i..] == ms
  {
    var (m, rest) := Delivered(ms, id);
    if m.Some? {
      var i := FirstFor(ms, id).value;
      assert rest[..i] == ms[..i];
      assert rest[i..] == ms[i + 1..];
      assert rest[..i] + [m.value] + rest[i..] == ms;
    }
  }

  class Mailbox {
    var messages: seq<Message>

    /** `Mailbox::new`: an empty mailbox. */
    constructor ()
      ensures messages == []
    {
      messages := [];
    }

    /** `post`: the message goes to the end of the queue. */
    method Post(msg: Message)
      modifies this
      ensures messages == old(messages) + [msg]
    {
      messages := messages + [msg];
    }

    /**
     * `deliver`: scan the queue from the front and remove the first message
     * addressed to the recipient; nothing changes when there is none.
     */
    method Deliver(recipient: CubeSat) returns (m: Option<Message>)
      modifies this
      ensures (m, messages) == Delivered(old(messages), recipient.id)
    {
      for i := 0 to |messages|
        invariant messages == old(messages)
        invariant forall j :: 0 <= j < i ==> messages[j].to != recipient.id
      {
        if messages[i].to == recipient.id {
          assert FirstFor(messages, recipient.id) == Some(i);
          m := Some(messages[i]);
          messages := messages[..i] + messages[i + 1..];
          return;
        }
      }
      m := None;
    }
  }

  datatype CubeSat = CubeSat(id: u64) {
    /** `recv`: the satellite asks the mailbox for its next message. */
    method Recv(mailbox: Mailbox) returns (m: Option<Message>)
      modifies mailbox
      ensures (m, mailbox.messages) == Delivered(old(mailbox.messages), id)
    {
      m := mailbox.Deliver(this);
    }
  }

  datatype GroundStation = GroundStation {
    /** `connect`: a handle on the satellite with the given id. */
    function Connect(satId: u64): (sat: CubeSat)
      ensures sat.id == satId
    {
      CubeSat(satId)
    }

    /** `send`: the station posts the message into the mailbox. */
    method Send(mailbox: Mailbox, msg: Message)
      modifies mailbox
      ensures mailbox.messages == old(mailbox.messages) + [msg]
    {
      mailbox.Post(msg);
    }
  }

  /** `fetch_ids`: the satellites the station talks to, 1 to 3 in order. */
  function FetchIds(): (ids: seq<u64>)
    ensures |ids| == 3 && forall i :: 0 <= i < 3 ==> ids[i] == i + 1
  {
    [1, 2, 3]
  }

  /** One "hi!" message for each id, in order. */
  function Greetings(ids: seq<u64>): (ms: seq<Message>)
    ensures |ms| == |ids|
    ensures forall j :: 0 <= j < |ids| ==> ms[j] == Message(ids[j], "hi!")
  {
    if ids == [] then [] else [Message(ids[0], "hi!")] + Greetings(ids[1..])
  }

  /**
   * When the queue starts with the greetings for `ids[k..]` and then `extra`,
   * the satellite `ids[k]` receives its greeting, the first message, and the
   * greetings for the later ids stay queued in front of `extra`.
   */
  lemma DeliverGreeting(ids: seq<u64>, k: nat, extra: Message)
    requires k < |ids|
    ensures Delivered(Greetings(ids[k..]) + [extra], ids[k])
         == (Some(Message(ids[k], "hi!")), Greetings(ids[k + 1..]) + [extra])
  {
    var ms := Greetings(ids[k..]) + [extra];
    assert ms[0] == Message(ids[k], "hi!");
    assert FirstFor(ms, ids[k]) == Some(0);
    assert ids[k..][1..] == ids[k + 1..];
    assert ms[..0] + ms[1..] == Greetings(ids[k + 1..]) + [extra];
  }

  /**
   * `main`: the station sends "hi!" to satellites 1, 2 and 3 and then "extra"
   * to satellite 1; each satellite then receives once. Every satellite gets
   * its "hi!", and the later "extra" for satellite 1 is still queued.
   */
  method MainScenario() returns (received: seq<Message>, remaining: seq<Message>)
    ensures received == [Message(1, "hi!"), Message(2, "hi!"), Message(3, "hi!")]
    ensures remaining == [Message(1, "extra")]
  {
    var base := GroundStation;
    var mailbox := new Mailbox();
    var ids := FetchIds();
    for k := 0 to |ids|
      invariant mailbox.messages == Greetings(ids[..k])
    {
      base.Send(mailbox, Message(ids[k], "hi!"));
      assert mailbox.messages == Greetings(ids[..k + 1]);
    }
    var extra := Message(1, "extra");
    base.Send(mailbox, extra);
    assert ids[..3] == ids && ids[3..] == [];
    received := [];
    for k := 0 to |ids|
      invariant mailbox.messages == Greetings(ids[k..]) + [extra]
      invariant received == Greetings(ids[..k])
    {
      var sat := base.Connect(ids[k]);
      DeliverGreeting(ids, k, extra);
      var m := sat.Recv(mailbox);
      if m.Some? {
        received := received + [m.value];
      }
      assert received == Greetings(ids[..k + 1]);
    }
    remaining := mailbox.messages;
  }
}
