/** The socket handlers of server.js. Each walks the members of the chat or
    group it is handed, skips one id, and emits an event to every other
    member's room; here each handler is the list of (recipient, event)
    pairs it emits, in member order. The payload is the chat itself and is
    left out of the pairs. Each member is taken to arrive as an object whose
    `_id` is its id string, and the admin as the id string that
    `groupAdmin.toString()` yields. */
module Fanout {

  import opened Common
  import opened ChatSchema
  import opened ChatQueries

  datatype Event =
    | MessageReceived
    | GroupCreated
    | GroupEdited
    | GroupPhotoRemoved
    | AddedToGroup
    | OtherUserAddedToGroup
    | RemovedFromGroup
    | OtherUserRemovedFromGroup
    | UserLeft
    | TypingStarted(name: string)
    | TypingStopped

  /** `socket.in(to).emit(event, ...)`. */
  datatype Emit = Emit(to: Id, event: Event)

  function Recipients(es: seq<Emit>): (ids: seq<Id>)
    ensures |ids| == |es|
    ensures forall i :: 0 <= i < |es| ==> ids[i] == es[i].to
  {
    seq(|es|, i requires 0 <= i < |es| => es[i].to)
  }

  lemma RecipientsConcat(a: seq<Emit>, b: seq<Emit>)
    ensures Recipients(a + b) == Recipients(a) + Recipients(b)
  {
  }

  /** The loop every handler but two shares: each member except `skip`
      gets `ev`, in member order and as often as the member is listed. */
  function AllExcept(members: seq<Id>, skip: Id, ev: Event): (es: seq<Emit>)
    ensures Recipients(es) == Without(members, skip)
    ensures forall i :: 0 <= i < |es| ==> es[i].event == ev && es[i].to != skip && es[i].to in members
  {
    if members == [] then []
    else
      var rest := AllExcept(members[1..], skip, ev);
      RecipientsConcat(if members[0] == skip then [] else [Emit(members[0], ev)], rest);
      assert members == [members[0]] + members[1..];
      (if members[0] == skip then [] else [Emit(members[0], ev)]) + rest
  }

  /** 'new message': every member but the sender. */
  function OnNewMessage(members: seq<Id>, sender: Id): (es: seq<Emit>)
    ensures Recipients(es) == Without(members, sender)
    ensures forall i :: 0 <= i < |es| ==> es[i].event == MessageReceived
  {
    AllExcept(members, sender, MessageReceived)
  }

  /** 'typing': every member but the typist, with the typist's name. */
  function OnTyping(members: seq<Id>, typist: Id, name: string): (es: seq<Emit>)
    ensures Recipients(es) == Without(members, typist)
    ensures forall i :: 0 <= i < |es| ==> es[i].event == TypingStarted(name)
  {
    AllExcept(members, typist, TypingStarted(name))
  }

  /** 'stop typing': every member but the typist. */
  function OnStopTyping(members: seq<Id>, typist: Id): (es: seq<Emit>)
    ensures Recipients(es) == Without(members, typist)
    ensures forall i :: 0 <= i < |es| ==> es[i].event == TypingStopped
  {
    AllExcept(members, typist, TypingStopped)
  }

  /** 'new group': every member but the admin. */
  function OnNewGroup(members: seq<Id>, admin: Id): (es: seq<Emit>)
    ensures Recipients(es) == Without(members, admin)
    ensures forall i :: 0 <= i < |es| ==> es[i].event == GroupCreated
  {
    AllExcept(members, admin, GroupCreated)
  }

  /** 'edit group': every member but the admin. */
  function OnEditGroup(members: seq<Id>, admin: Id): (es: seq<Emit>)
    ensures Recipients(es) == Without(members, admin)
    ensures forall i :: 0 <= i < |es| ==> es[i].event == GroupEdited
  {
    AllExcept(members, admin, GroupEdited)
  }

  /** 'group photo remove': every member but the admin. */
  function OnGroupPhotoRemove(members: seq<Id>, admin: Id): (es: seq<Emit>)
    ensures Recipients(es) == Without(members, admin)
    ensures forall i :: 0 <= i < |es| ==> es[i].event == GroupPhotoRemoved
  {
    AllExcept(members, admin, GroupPhotoRemoved)
  }

  /** 'leave group': every member but the admin. */
  function OnLeaveGroup(members: seq<Id>, admin: Id): (es: seq<Emit>)
    ensures Recipients(es) == Without(members, admin)
    ensures forall i :: 0 <= i < |es| ==> es[i].event == UserLeft
  {
    AllExcept(members, admin, UserLeft)
  }

  /** The loop of 'add to group' (and of 'remove from group' once its
      undeclared variable is replaced): the admin is skipped, `target` gets
      `own`, every other member gets `others`. */
  function Split2(members: seq<Id>, admin: Id, target: Id, own: Event, others: Event): (es: seq<Emit>)
    ensures |es| <= |members|
    ensures forall i :: 0 <= i < |es| ==> es[i].to != admin && es[i].to in members
  {
    if members == [] then []
    else
      var u := members[0];
      (if u == admin then [] else if u == target then [Emit(u, own)] else [Emit(u, others)])
      + Split2(members[1..], admin, target, own, others)
  }

  /** `Split2` reaches the members other than the admin, in order, with
      `own` for `target` and `others` for everybody else. */
  lemma Split2Shape(members: seq<Id>, admin: Id, target: Id, own: Event, others: Event)
    requires own != others
    ensures Recipients(Split2(members, admin, target, own, others)) == Without(members, admin)
    ensures SplitShaped(Split2(members, admin, target, own, others), target, own, others)
  {
    Split2Recipients(members, admin, target, own, others);
    Split2Events(members, admin, target, own, others);
  }

  lemma {:induction false} Split2Recipients(members: seq<Id>, admin: Id, target: Id, own: Event, others: Event)
    ensures Recipients(Split2(members, admin, target, own, others)) == Without(members, admin)
    decreases |members|
  {
    if members != [] {
      var u := members[0];
      var head := if u == admin then [] else if u == target then [Emit(u, own)] else [Emit(u, others)];
      var rest := Split2(members[1..], admin, target, own, others);
      Split2Recipients(members[1..], admin, target, own, others);
      RecipientsConcat(head, rest);
      assert Recipients(head) == if u == admin then [] else [u];
      assert Without(members, admin) == (if u == admin then [] else [u]) + Without(members[1..], admin);
    }
  }

  /** Every pair carries `own` or `others`, and `own` exactly when it goes
      to `target`. */
  predicate SplitShaped(es: seq<Emit>, target: Id, own: Event, others: Event) {
    forall i :: 0 <= i < |es| ==> (es[i].event == own <==> es[i].to == target) && es[i].event in {own, others}
  }

  lemma {:induction false} Split2Events(members: seq<Id>, admin: Id, target: Id, own: Event, others: Event)
    requires own != others
    ensures SplitShaped(Split2(members, admin, target, own, others), target, own, others)
    decreases |members|
  {
    if members != [] {
      var u := members[0];
      var rest := Split2(members[1..], admin, target, own, others);
      Split2Events(members[1..], admin, target, own, others);
      if u != admin {
        var e := if u == target then Emit(u, own) else Emit(u, others);
        ShapedCons(e, rest, target, own, others);
      }
    }
  }

  lemma ShapedCons(e: Emit, rest: seq<Emit>, target: Id, own: Event, others: Event)
    requires SplitShaped([e], target, own, others) && SplitShaped(rest, target, own, others)
    ensures SplitShaped([e] + rest, target, own, others)
  {
    var es := [e] + rest;
    forall i | 1 <= i < |es| ensures es[i] == rest[i - 1] {
    }
  }

  /** 'add to group'. */
  function OnAddToGroup(members: seq<Id>, admin: Id, added: Id): (es: seq<Emit>)
    ensures Recipients(es) == Without(members, admin)
    ensures forall i :: 0 <= i < |es| ==> (es[i].event == AddedToGroup <==> es[i].to == added)
    ensures forall i :: 0 <= i < |es| ==> es[i].event == AddedToGroup || es[i].event == OtherUserAddedToGroup
  {
    Split2Shape(members, admin, added, AddedToGroup, OtherUserAddedToGroup);
    Split2(members, admin, added, AddedToGroup, OtherUserAddedToGroup)
  }

  /** The ids that receive `ev`. */
  function Receiving(es: seq<Emit>, ev: Event): set<Id> {
    set i | 0 <= i < |es| && es[i].event == ev :: es[i].to
  }

  /** Everybody listed who is not `x`. */
  function OthersThan(members: seq<Id>, x: Id): set<Id> {
    set u | u in members && u != x
  }

  /** The two kinds of 'add to group' reach disjoint sets of members whose
      union is every member except the admin; only the added user can get
      the first kind. */
  lemma AddToGroupSplit(members: seq<Id>, admin: Id, added: Id)
    ensures Receiving(OnAddToGroup(members, admin, added), AddedToGroup) * Receiving(OnAddToGroup(members, admin, added), OtherUserAddedToGroup) == {}
    ensures Receiving(OnAddToGroup(members, admin, added), AddedToGroup) + Receiving(OnAddToGroup(members, admin, added), OtherUserAddedToGroup)
            == OthersThan(members, admin)
    ensures Receiving(OnAddToGroup(members, admin, added), AddedToGroup) <= {added}
  {
    Split2Shape(members, admin, added, AddedToGroup, OtherUserAddedToGroup);
    ReachedExactly(OnAddToGroup(members, admin, added), members, admin);
    SplitCovers(OnAddToGroup(members, admin, added), OthersThan(members, admin), added, AddedToGroup, OtherUserAddedToGroup);
  }

  /** Any list shaped like the result of `Split2` splits the set it reaches
      in two. */
  lemma SplitCovers(es: seq<Emit>, who: set<Id>, target: Id, own: Event, others: Event)
    requires own != others
    requires ReachesExactly(es, who) && SplitShaped(es, target, own, others)
    ensures Receiving(es, own) * Receiving(es, others) == {}
    ensures Receiving(es, own) + Receiving(es, others) == who
    ensures Receiving(es, own) <= {target}
  {
    SplitDisjoint(es, target, own, others);
    forall u | u in who ensures u in Receiving(es, own) + Receiving(es, others) {
      var i :| 0 <= i < |es| && es[i].to == u;
      assert u in Receiving(es, es[i].event);
    }
  }

  /** Only `target` gets `own`, and nobody gets both kinds. */
  lemma SplitDisjoint(es: seq<Emit>, target: Id, own: Event, others: Event)
    requires own != others && SplitShaped(es, target, own, others)
    ensures Receiving(es, own) * Receiving(es, others) == {}
    ensures Receiving(es, own) <= {target}
  {
    forall u | u in Receiving(es, own) ensures u == target {
      var i :| 0 <= i < |es| && es[i].event == own && es[i].to == u;
    }
    forall u | u in Receiving(es, others) ensures u != target {
      var i :| 0 <= i < |es| && es[i].event == others && es[i].to == u;
    }
  }

  /** `es` reaches the ids in `who` and nobody else. */
  ghost predicate ReachesExactly(es: seq<Emit>, who: set<Id>) {
    forall u :: u in who <==> exists i :: 0 <= i < |es| && es[i].to == u
  }

  /** A list whose recipients are `members` without `x` reaches exactly the
      members other than `x`. */
  lemma ReachedExactly(es: seq<Emit>, members: seq<Id>, x: Id)
    requires Recipients(es) == Without(members, x)
    ensures ReachesExactly(es, OthersThan(members, x))
  {
    var r := Recipients(es);
    forall u
      ensures u in OthersThan(members, x) <==> exists i :: 0 <= i < |es| && es[i].to == u
    {
      if u in OthersThan(members, x) {
        assert multiset(members)[u] > 0;
        assert u in multiset(r);
        var i :| 0 <= i < |r| && r[i] == u;
        assert es[i].to == u;
      }
      if exists i :: 0 <= i < |es| && es[i].to == u {
        var i :| 0 <= i < |es| && es[i].to == u;
        assert r[i] == u;
        assert multiset(r)[u] > 0;
        assert u != x;
        assert multiset(members)[u] > 0;
      }
    }
  }

  /** 'remove from group' as written: the loop compares each non-admin
      member with `id`, which is not declared anywhere, so the handler
      throws a ReferenceError (None) on the first non-admin member. Every
      member it passes before that is the admin, so it emits nothing. */
  function RemoveFromGroupAsWritten(members: seq<Id>, admin: Id, removed: Id): (r: Option<seq<Emit>>)
    ensures r.Some? <==> forall i :: 0 <= i < |members| ==> members[i] == admin
    ensures r.Some? ==> r.value == []
  {
    if members == [] then Some([])
    else if members[0] != admin then None
    else RemoveFromGroupAsWritten(members[1..], admin, removed)
  }

  /** A group of an admin and one other member: the handler reaches the other
      member and throws, so nobody is told of the removal. */
  lemma RemoveFromGroupNeverDelivers(admin: Id, other: Id, removed: Id)
    requires admin != other
    ensures RemoveFromGroupAsWritten([admin, other], admin, removed) == None
    ensures |OnRemoveFromGroup([admin, other], admin, removed)| == 1
  {
    assert [admin, other][1] != admin;
    assert Without([admin, other], admin) == [other] by {
      assert [admin, other][1..] == [other];
      assert Without([other], admin) == [other];
    }
  }

  /** 'remove from group' as evidently intended, comparing with the
      removed user's id: the admin is skipped, the removed user gets
      'removed from group', every other member gets 'other user removed
      from group'. */
  function OnRemoveFromGroup(members: seq<Id>, admin: Id, removed: Id): (es: seq<Emit>)
    ensures Recipients(es) == Without(members, admin)
    ensures forall i :: 0 <= i < |es| ==> (es[i].event == RemovedFromGroup <==> es[i].to == removed)
    ensures forall i :: 0 <= i < |es| ==> es[i].event == RemovedFromGroup || es[i].event == OtherUserRemovedFromGroup
  {
    Split2Shape(members, admin, removed, RemovedFromGroup, OtherUserRemovedFromGroup);
    Split2(members, admin, removed, RemovedFromGroup, OtherUserRemovedFromGroup)
  }

  /** The two kinds of the corrected 'remove from group' reach disjoint
      sets whose union is every member except the admin. */
  lemma RemoveFromGroupSplit(members: seq<Id>, admin: Id, removed: Id)
    ensures Receiving(OnRemoveFromGroup(members, admin, removed), RemovedFromGroup) * Receiving(OnRemoveFromGroup(members, admin, removed), OtherUserRemovedFromGroup) == {}
    ensures Receiving(OnRemoveFromGroup(members, admin, removed), RemovedFromGroup) + Receiving(OnRemoveFromGroup(members, admin, removed), OtherUserRemovedFromGroup)
            == OthersThan(members, admin)
    ensures Receiving(OnRemoveFromGroup(members, admin, removed), RemovedFromGroup) <= {removed}
  {
    Split2Shape(members, admin, removed, RemovedFromGroup, OtherUserRemovedFromGroup);
    ReachedExactly(OnRemoveFromGroup(members, admin, removed), members, admin);
    SplitCovers(OnRemoveFromGroup(members, admin, removed), OthersThan(members, admin), removed, RemovedFromGroup, OtherUserRemovedFromGroup);
  }

  /** The group PUT /group/removeUser answers with no longer lists the
      removed user, so even the corrected loop tells that user nothing when
      handed that group. */
  lemma RemovedUserAbsentFromAnswer(c: Chat, admin: Id, removed: Id)
    ensures forall i :: 0 <= i < |OnRemoveFromGroup(RemovedMember(c, removed).users, admin, removed)| ==>
              OnRemoveFromGroup(RemovedMember(c, removed).users, admin, removed)[i].event == OtherUserRemovedFromGroup
  {
    var members := RemovedMember(c, removed).users;
    var es := OnRemoveFromGroup(members, admin, removed);
    forall i | 0 <= i < |es| ensures es[i].event == OtherUserRemovedFromGroup {
      assert Recipients(es)[i] == es[i].to;
      assert multiset(Without(members, admin))[es[i].to] > 0;
    }
  }

  /** After a leave, 'leave group' on the updated group reaches every
      remaining member except the new admin (the first of them); the leaver
      is never told. */
  lemma LeaveNotifiesRemaining(c: Chat, leaver: Id)
    requires AfterLeave(c, leaver).users != []
    ensures var g := AfterLeave(c, leaver);
            var es := OnLeaveGroup(g.users, g.groupAdmin.value);
            && g.groupAdmin == Some(g.users[0])
            && Recipients(es) == Without(g.users, g.users[0])
            && forall i :: 0 <= i < |es| ==> es[i].to != leaver && es[i].to != g.users[0]
  {
    var g := AfterLeave(c, leaver);
    var es := OnLeaveGroup(g.users, g.groupAdmin.value);
    forall i | 0 <= i < |es| ensures es[i].to != leaver {
      assert Recipients(es)[i] == es[i].to;
      assert multiset(Without(g.users, g.users[0]))[es[i].to] > 0;
      assert multiset(g.users)[es[i].to] > 0;
    }
  }
}
