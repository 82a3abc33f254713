/**
Gmail threads the user unsubscribed from: clearing their labels when they are synchronized, and the
status of the notification derived from the result.
*/
module MailReconciliation {
  import opened Wrappers
  import opened Texts

  datatype Header = Header(name: string, value: string)

  datatype Message = Message(labels: Option<seq<string>>, headers: seq<Header>, date: int)

  datatype Thread = Thread(messages: seq<Message>, userEmail: string)

  datatype Status = Unread | Read | Deleted | Unsubscribed

  const INBOX := "INBOX"

  const UNREAD := "UNREAD"

  predicate IsTagged(m: Message, tag: string) {
    m.labels.Some? && tag in m.labels.value
  }

  predicate AnyTagged(t: Thread, tag: string) {
    exists i :: 0 <= i < |t.messages| && IsTagged(t.messages[i], tag)
  }

  function Without(labels: seq<string>, drop: seq<string>): (r: seq<string>)
    ensures forall l :: l in r <==> l in labels && l !in drop
  {
    if labels == [] then []
    else if labels[0] in drop then Without(labels[1..], drop)
    else [labels[0]] + Without(labels[1..], drop)
  }

  function Untagged(m: Message, drop: seq<string>): Message {
    if m.labels.Some? then m.(labels := Some(Without(m.labels.value, drop))) else m
  }

  /** `remove_labels`: on every message. */
  function RemoveLabels(t: Thread, drop: seq<string>): Thread {
    t.(messages := seq(|t.messages|, i requires 0 <= i < |t.messages| => Untagged(t.messages[i], drop)))
  }

  /** The position of the first unread message from `i` on, or the number of messages. */
  function FirstUnread(t: Thread, i: nat): (k: nat)
    requires i <= |t.messages|
    ensures i <= k <= |t.messages| && (k < |t.messages| ==> IsTagged(t.messages[k], UNREAD))
    ensures forall j :: i <= j < k ==> !IsTagged(t.messages[j], UNREAD)
    decreases |t.messages| - i
  {
    if i == |t.messages| || IsTagged(t.messages[i], UNREAD) then i else FirstUnread(t, i + 1)
  }

  predicate IsAddressed(m: Message, email: string) {
    exists i :: 0 <= i < |m.headers| && m.headers[i].name == "To" && Contains(m.headers[i].value, email)
  }

  /** Some message at or after the first unread one is addressed to the user. */
  predicate CallsForUser(t: Thread) {
    exists i :: FirstUnread(t, 0) <= i < |t.messages| && IsAddressed(t.messages[i], t.userEmail)
  }

  function Dropped(synced: string): seq<string> {
    [INBOX, synced]
  }

  /** A thread once it is synchronized, given whether its notification was unsubscribed from. */
  function Reconciled(t: Thread, unsubscribed: bool, synced: string): Thread {
    if unsubscribed && !CallsForUser(t) then RemoveLabels(t, Dropped(synced)) else t
  }

  function FromHeader(headers: seq<Header>): Option<string> {
    if headers == [] then None
    else if headers[0].name == "From" then Some(headers[0].value)
    else FromHeader(headers[1..])
  }

  predicate LastFromUser(t: Thread) {
    t.messages != [] &&
    var from := FromHeader(t.messages[|t.messages| - 1].headers);
    from.Some? && Contains(from.value, t.userEmail)
  }

  /** The status a thread gives its notification. */
  function StatusOf(t: Thread): Status {
    if !AnyTagged(t, INBOX) then Unsubscribed
    else if !AnyTagged(t, UNREAD) then Read
    else if LastFromUser(t) then Deleted
    else Unread
  }

  /** When the user read last: the date of the message before the first unread one. */
  function LastReadAt(t: Thread): Option<int>
    requires t.messages != []
  {
    var k := FirstUnread(t, 0);
    if k == 0 then None else Some(t.messages[k - 1].date)
  }

  /******* What reconciliation does *******/

  lemma UntaggedHas(m: Message, drop: seq<string>, tag: string)
    ensures IsTagged(Untagged(m, drop), tag) <==> IsTagged(m, tag) && tag !in drop
  {
  }

  /**
  For every thread whose notification is unsubscribed: it stays unsubscribed exactly when no message is
  in the inbox, or none from the first unread one on is addressed to the user.
  */
  lemma StaysUnsubscribedIff(t: Thread, synced: string)
    ensures StatusOf(Reconciled(t, true, synced)) == Unsubscribed <==> !AnyTagged(t, INBOX) || !CallsForUser(t)
  {
  }

  /** `list_threads` with a label: the threads of which some message carries it. */
  function Listing(threads: map<string, Thread>, tag: string): set<string> {
    set id | id in threads && AnyTagged(threads[id], tag)
  }

  /** Reconciling an unsubscribed thread takes it off the listing, and out of the inbox, exactly if it does not call for the user. */
  lemma ClearedIsNotListed(threads: map<string, Thread>, id: string, synced: string)
    requires id in Listing(threads, synced)
    ensures var after := threads[id := Reconciled(threads[id], true, synced)];
            && Listing(after, synced) == (if CallsForUser(threads[id]) then Listing(threads, synced) else Listing(threads, synced) - {id})
            && (!CallsForUser(threads[id]) ==> id !in Listing(after, INBOX))
  {
    hide CallsForUser, AnyTagged;
    RemovedHas(threads[id], Dropped(synced), synced);
    RemovedHas(threads[id], Dropped(synced), INBOX);
  }

  lemma RemovedHas(t: Thread, drop: seq<string>, tag: string)
    ensures AnyTagged(RemoveLabels(t, drop), tag) <==> AnyTagged(t, tag) && tag !in drop
  {
    hide Untagged, IsTagged;
    var r := RemoveLabels(t, drop);
    forall i | 0 <= i < |t.messages| ensures IsTagged(r.messages[i], tag) <==> IsTagged(t.messages[i], tag) && tag !in drop {
      UntaggedHas(t.messages[i], drop, tag);
    }
  }

  lemma {:induction false} FirstUnreadAfter(t: Thread, drop: seq<string>, i: nat)
    requires i <= |t.messages|
    ensures UNREAD !in drop ==> FirstUnread(RemoveLabels(t, drop), i) == FirstUnread(t, i)
    ensures UNREAD in drop ==> FirstUnread(RemoveLabels(t, drop), i) == |t.messages|
    decreases |t.messages| - i
  {
    hide IsTagged, Untagged;
    if i < |t.messages| {
      UntaggedHas(t.messages[i], drop, UNREAD);
      FirstUnreadAfter(t, drop, i + 1);
    }
  }

  lemma {:induction false} WithoutTwice(labels: seq<string>, drop: seq<string>)
    ensures Without(Without(labels, drop), drop) == Without(labels, drop)
  {
    if labels != [] { WithoutTwice(labels[1..], drop); }
  }

  lemma RemoveTwice(t: Thread, drop: seq<string>)
    ensures RemoveLabels(RemoveLabels(t, drop), drop) == RemoveLabels(t, drop)
  {
    forall i | 0 <= i < |t.messages|
      ensures Untagged(Untagged(t.messages[i], drop), drop) == Untagged(t.messages[i], drop)
    {
      if t.messages[i].labels.Some? { WithoutTwice(t.messages[i].labels.value, drop); }
    }
    hide Untagged;
    assert RemoveLabels(RemoveLabels(t, drop), drop).messages == RemoveLabels(t, drop).messages;
  }

  /** For every thread and label: synchronizing twice is synchronizing once. */
  lemma ReconcileTwice(t: Thread, unsubscribed: bool, synced: string)
    ensures Reconciled(Reconciled(t, unsubscribed, synced), unsubscribed, synced) == Reconciled(t, unsubscribed, synced)
  {
    hide CallsForUser, RemoveLabels;
    if unsubscribed && !CallsForUser(t) {
      RemoveTwice(t, Dropped(synced));
    }
  }

  /** Clearing keeps the last reading unless the synchronized label is the unread mark itself. */
  lemma LastReadAfter(t: Thread, synced: string)
    requires t.messages != [] && !CallsForUser(t)
    ensures var r := Reconciled(t, true, synced);
            r.messages != [] &&
            LastReadAt(r) == if synced == UNREAD then Some(t.messages[|t.messages| - 1].date) else LastReadAt(t)
  {
    hide CallsForUser, FirstUnread;
    FirstUnreadAfter(t, Dropped(synced), 0);
  }

  /******* What a thread says *******/

  /** A message is addressed to the user where some To header, and no other, contains the address. */
  lemma AddressedIff(m: Message, email: string)
    ensures IsAddressed(m, email) <==>
            exists i, before, after :: 0 <= i < |m.headers| && m.headers[i] == Header("To", before + (email + after))
  {
    if i :| 0 <= i < |m.headers| && m.headers[i].name == "To" && Contains(m.headers[i].value, email) {
      ContainsIff(m.headers[i].value, email);
      var before, after :| m.headers[i].value == before + (email + after);
      assert m.headers[i] == Header("To", before + (email + after));
    }
    if i, before, after :| 0 <= i < |m.headers| && m.headers[i] == Header("To", before + (email + after)) {
      ContainsIff(m.headers[i].value, email);
    }
  }

  /** A thread calls for the user where a message is addressed that is unread or comes after an unread one. */
  lemma CallsForUserIff(t: Thread)
    ensures CallsForUser(t) <==>
            exists i, j :: 0 <= j <= i < |t.messages| && IsTagged(t.messages[j], "UNREAD") && IsAddressed(t.messages[i], t.userEmail)
  {
    var k := FirstUnread(t, 0);
    if i :| k <= i < |t.messages| && IsAddressed(t.messages[i], t.userEmail) {
      assert IsTagged(t.messages[k], "UNREAD");
    }
  }

  lemma {:induction false} FromHeaderIs(headers: seq<Header>, value: string)
    ensures FromHeader(headers) == Some(value) <==>
            exists i :: 0 <= i < |headers| && headers[i] == Header("From", value) && forall j :: 0 <= j < i ==> headers[j].name != "From"
  {
    if headers != [] && headers[0].name != "From" {
      var rest := headers[1..];
      FromHeaderIs(rest, value);
      if i :| 0 <= i < |rest| && rest[i] == Header("From", value) && forall j :: 0 <= j < i ==> rest[j].name != "From" {
        assert headers[i + 1] == Header("From", value) && forall j :: 0 < j < i + 1 ==> headers[j] == rest[j - 1];
      }
      if i :| 0 <= i < |headers| && headers[i] == Header("From", value) && forall j :: 0 <= j < i ==> headers[j].name != "From" {
        assert rest[i - 1] == Header("From", value) && forall j :: 0 <= j < i - 1 ==> rest[j] == headers[j + 1];
      }
    }
  }

  /** For every thread: its status, told from the labels of its messages and the sender of the last one. */
  lemma StatusIff(t: Thread)
    ensures StatusOf(t) == Unsubscribed <==> forall i :: 0 <= i < |t.messages| ==> !IsTagged(t.messages[i], "INBOX")
    ensures StatusOf(t) == Read <==> StatusOf(t) != Unsubscribed && forall i :: 0 <= i < |t.messages| ==> !IsTagged(t.messages[i], "UNREAD")
    ensures StatusOf(t) == Deleted <==>
            && (exists i :: 0 <= i < |t.messages| && IsTagged(t.messages[i], "INBOX"))
            && (exists i :: 0 <= i < |t.messages| && IsTagged(t.messages[i], "UNREAD"))
            && exists before, after :: FromHeader(t.messages[|t.messages| - 1].headers) == Some(before + (t.userEmail + after))
  {
    hide FromHeader, IsTagged;
    if t.messages != [] {
      var from := FromHeader(t.messages[|t.messages| - 1].headers);
      if from.Some? { ContainsIff(from.value, t.userEmail); }
    }
  }

  /** For every thread: the last reading is the date of the message before the first unread one. */
  lemma LastReadIs(t: Thread, k: nat)
    requires t.messages != [] && k <= |t.messages| && (k < |t.messages| ==> IsTagged(t.messages[k], "UNREAD"))
    requires forall j :: 0 <= j < k ==> !IsTagged(t.messages[j], "UNREAD")
    ensures LastReadAt(t) == if k == 0 then None else Some(t.messages[k - 1].date)
  {
  }

  /** Removing labels keeps the others, in their order, and everything else of a thread. */
  lemma RemovalKeepsRest(t: Thread, drop: seq<string>, i: nat)
    requires i < |t.messages|
    ensures var r := RemoveLabels(t, drop);
            && |r.messages| == |t.messages| && r.userEmail == t.userEmail
            && r.messages[i].headers == t.messages[i].headers && r.messages[i].date == t.messages[i].date
            && (t.messages[i].labels.None? <==> r.messages[i].labels.None?)
  {
  }

  /******* The loop *******/

  /** The user's mailbox at Gmail, and the threads Gmail refuses to change. */
  class Mailbox {
    var threads: map<string, Thread>
    const refused: set<string>

    constructor (threads: map<string, Thread>, refused: set<string>)
      ensures this.threads == threads && this.refused == refused
    {
      this.threads, this.refused := threads, refused;
    }

    /** `modify_thread`. */
    method ModifyThread(id: string, drop: seq<string>) returns (ok: bool)
      requires id in threads
      modifies this`threads
      ensures ok == (id !in refused)
      ensures threads == if ok then old(threads)[id := RemoveLabels(old(threads)[id], drop)] else old(threads)
    {
      ok := id !in refused;
      if ok { threads := threads[id := RemoveLabels(threads[id], drop)]; }
    }

    /** The decision for one thread: whether any message from the first unread one on calls for the user. */
    static method CallsFor(t: Thread) returns (calls: bool)
      ensures calls == CallsForUser(t)
    {
      var i := FirstUnread(t, 0);
      while i < |t.messages|
        invariant FirstUnread(t, 0) <= i <= |t.messages|
        invariant forall j :: FirstUnread(t, 0) <= j < i ==> !IsAddressed(t.messages[j], t.userEmail)
      {
        if IsAddressed(t.messages[i], t.userEmail) { return true; }
        i := i + 1;
      }
      return false;
    }

    /** Whether the labels of thread `id` are to be cleared. */
    ghost predicate Clears(id: string, unsubscribed: set<string>)
      requires id in threads
      reads this
    {
      id in unsubscribed && !CallsForUser(threads[id])
    }

    /** One thread of the listing, fetched before any was changed; it may have been reconciled since. */
    method SyncThread(id: string, fetched: Thread, unsubscribed: bool, synced: string) returns (item: Option<Thread>)
      requires id in threads && (threads[id] == fetched || threads[id] == Reconciled(fetched, unsubscribed, synced))
      modifies this`threads
      ensures item.None? <==> unsubscribed && !CallsForUser(fetched) && id in refused
      ensures item.None? ==> threads == old(threads)
      ensures item.Some? ==> item.value == Reconciled(fetched, unsubscribed, synced) && threads == old(threads)[id := item.value]
    {
      hide CallsForUser, RemoveLabels;
      var thread := fetched;
      if unsubscribed {
        var calls := CallsFor(thread);
        if !calls {
          RemoveTwice(fetched, Dropped(synced));
          var ok := ModifyThread(id, [INBOX, synced]);
          if !ok { return None; }
          thread := RemoveLabels(thread, [INBOX, synced]);
        }
      }
      return Some(thread);
    }

    /**
    The threads of a listing, which may name one twice, as items. Local and upstream labels change
    together: what is answered is what the mailbox then holds, and that is each listed thread
    reconciled and every other one as it was. The call fails at the first thread Gmail refuses to
    change, with the threads before it reconciled.
    */
    method FetchItems(listed: seq<string>, unsubscribed: set<string>, synced: string) returns (r: Option<seq<Thread>>)
      requires forall i :: 0 <= i < |listed| ==> listed[i] in threads
      modifies this`threads
      ensures r.None? <==> exists i :: 0 <= i < |listed| && old(Clears(listed[i], unsubscribed)) && listed[i] in refused
      ensures r.Some? ==> threads == Synced(old(threads), listed, unsubscribed, synced) && |r.value| == |listed|
      ensures r.Some? ==> forall i :: 0 <= i < |listed| ==> listed[i] in threads && r.value[i] == threads[listed[i]]
      ensures r.None? ==> exists k ::
        && 0 <= k < |listed| && listed[k] in refused && old(Clears(listed[k], unsubscribed))
        && threads == Synced(old(threads), listed[..k], unsubscribed, synced)
    {
      hide CallsForUser, RemoveLabels, Reconciled, Synced;
      var before := threads;
      var items: seq<Thread> := [];
      var fetched := seq(|listed|, i requires 0 <= i < |listed| && listed[i] in before => before[listed[i]]);
      SyncedNone(before, unsubscribed, synced);
      for k := 0 to |listed|
        invariant threads == Synced(before, listed[..k], unsubscribed, synced) && |items| == k
        invariant forall i :: 0 <= i < k ==> !(listed[i] in unsubscribed && !CallsForUser(before[listed[i]]) && listed[i] in refused)
        invariant forall i :: 0 <= i < k ==> items[i] == Reconciled(before[listed[i]], listed[i] in unsubscribed, synced)
      {
        SyncedOneMore(before, listed, k, unsubscribed, synced);
        var item := SyncThread(listed[k], fetched[k], listed[k] in unsubscribed, synced);
        if item.None? {
          assert listed[k] in refused;
          return None;
        }
        items := items + [item.value];
      }
      assert listed[..|listed|] == listed;
      SyncedAt(before, listed, unsubscribed, synced);
      return Some(items);
    }
  }

  /** The mailbox with the listed threads reconciled. */
  function Synced(threads: map<string, Thread>, listed: seq<string>, unsubscribed: set<string>, synced: string): map<string, Thread> {
    map id | id in threads :: if id in listed then Reconciled(threads[id], id in unsubscribed, synced) else threads[id]
  }

  lemma SyncedNone(threads: map<string, Thread>, unsubscribed: set<string>, synced: string)
    ensures Synced(threads, [], unsubscribed, synced) == threads
  {
  }

  lemma SyncedOneMore(threads: map<string, Thread>, listed: seq<string>, k: nat, unsubscribed: set<string>, synced: string)
    requires k < |listed| && listed[k] in threads
    ensures var id, now := listed[k], Synced(threads, listed[..k], unsubscribed, synced);
            var item := Reconciled(threads[id], id in unsubscribed, synced);
            && id in now && (now[id] == threads[id] || now[id] == item)
            && Synced(threads, listed[..k + 1], unsubscribed, synced) == now[id := item]
  {
    hide Reconciled;
    assert listed[..k + 1] == listed[..k] + [listed[k]];
  }

  lemma SyncedAt(threads: map<string, Thread>, listed: seq<string>, unsubscribed: set<string>, synced: string)
    requires forall i :: 0 <= i < |listed| ==> listed[i] in threads
    ensures forall i :: 0 <= i < |listed| ==>
      && listed[i] in Synced(threads, listed, unsubscribed, synced)
      && Synced(threads, listed, unsubscribed, synced)[listed[i]] == Reconciled(threads[listed[i]], listed[i] in unsubscribed, synced)
  {
    hide Reconciled;
  }
}
