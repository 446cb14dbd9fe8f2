/**
 * The recipient handling of `_MessageForm` in cosinnus_message/forms.py:
 * the constructor narrows the selectable recipients to the group's members
 * without the current user, removing that user's id from the member list in
 * place; `clean_recipients` rejects an empty selection unless the message is
 * a broadcast, which goes to every selectable recipient.
 *
 * Users are their ids; the user table is the set of existing ids.
 */
module MessageForm {
  import opened Strings

  // --- list.remove -------------------------------------------------------------

  /** Python's `list.remove(x)` on a value: the list without its first `x`; `None` (ValueError) when absent. */
  function RemoveFirst(s: seq<nat>, x: nat): (r: Option<seq<nat>>)
    ensures r.Some? <==> x in s
  {
    if s == [] then None
    else if s[0] == x then Some(s[1..])
    else
      match RemoveFirst(s[1..], x)
      case None => None
      case Some(rest) => Some([s[0]] + rest)
  }

  /** Removing drops the occurrence at the first index holding the value, and only that one. */
  lemma {:induction false} RemoveFirstAt(s: seq<nat>, x: nat, i: nat)
    requires i < |s| && s[i] == x && x !in s[..i]
    ensures RemoveFirst(s, x) == Some(s[..i] + s[i + 1..])
  {
    if i == 0 {
      assert s[..i] + s[i + 1..] == s[1..];
    } else {
      assert s[0] == s[..i][0];
      assert s[1..][..i - 1] == s[..i][1..];
      RemoveFirstAt(s[1..], x, i - 1);
      assert [s[0]] + (s[1..][..i - 1] + s[1..][i..]) == s[..i] + s[i + 1..];
    }
  }

  /**
   * What `remove` leaves: one occurrence fewer of `x`, every other id as
   * often as before, and `x` still present exactly when it occurred twice.
   */
  lemma {:induction false} RemoveFirstContents(s: seq<nat>, x: nat)
    ensures RemoveFirst(s, x).Some? <==> x in s
    ensures RemoveFirst(s, x).Some? ==>
              var r := RemoveFirst(s, x).value;
              && |r| == |s| - 1
              && multiset(r) + multiset{x} == multiset(s)
              && (x in r <==> multiset(s)[x] >= 2)
  {
    if s != [] {
      RemoveFirstContents(s[1..], x);
      assert s == [s[0]] + s[1..];
      assert multiset(s) == multiset{s[0]} + multiset(s[1..]);
    }
  }

  /** A mutable list of user ids, as `group.members` hands it to the form. */
  class IdList {
    var items: seq<nat>

    constructor (items: seq<nat>)
      ensures this.items == items
    {
      this.items := items;
    }

    /** `list.remove(x)` in place; `false` where Python raises ValueError, leaving the list as it was. */
    method Remove(x: nat) returns (ok: bool)
      modifies this
      ensures ok <==> x in old(items)
      ensures items == (if ok then RemoveFirst(old(items), x).value else old(items))
    {
      var i := 0;
      while i < |items| && items[i] != x
        invariant 0 <= i <= |items|
        invariant x !in items[..i]
      {
        assert items[..i + 1] == items[..i] + [items[i]];
        i := i + 1;
      }
      if i == |items| {
        assert items[..i] == items;
        ok := false;
      } else {
        RemoveFirstAt(items, x, i);
        items := items[..i] + items[i + 1..];
        ok := true;
      }
    }
  }

  // --- _MessageForm.__init__ -----------------------------------------------------

  /** The selectable recipients: existing users whose id is in the narrowed list; `None` when narrowing raises. */
  function Selectable(members: seq<nat>, userId: nat, users: set<nat>): Option<set<nat>>
  {
    match RemoveFirst(members, userId)
    case None => None
    case Some(rest) => Some(set u | u in users && u in rest)
  }

  /**
   * The form can be built exactly when the current user is a member; then the
   * selectable recipients are the existing users among the members, the
   * current user only when listed twice.
   */
  lemma SelectableMembers(members: seq<nat>, userId: nat, users: set<nat>)
    ensures Selectable(members, userId, users).Some? <==> userId in members
    ensures Selectable(members, userId, users).Some? ==>
              forall u :: u in Selectable(members, userId, users).value <==>
                u in users && u in members && (u != userId || multiset(members)[userId] >= 2)
  {
    RemoveFirstContents(members, userId);
    if userId in members {
      var rest := RemoveFirst(members, userId).value;
      forall u
        ensures u in rest <==> u in members && (u != userId || multiset(members)[userId] >= 2)
      {
        assert multiset(members)[u] == multiset(rest)[u] + multiset{userId}[u];
      }
    }
  }

  /**
   * The recipient narrowing of the constructor: the group's member list loses
   * the current user's id in place, and the choices are the users left in it.
   */
  method NarrowRecipients(members: IdList, userId: nat, users: set<nat>) returns (choices: Option<set<nat>>)
    modifies members
    ensures members.items == (if userId in old(members.items) then RemoveFirst(old(members.items), userId).value
                              else old(members.items))
    ensures choices == Selectable(old(members.items), userId, users)
  {
    var ok := members.Remove(userId);
    if ok {
      choices := Some(set u | u in users && u in members.items);
    } else {
      choices := None;
    }
  }

  // --- _MessageForm.clean_recipients -------------------------------------------

  /** The outcome of cleaning the recipient field. */
  datatype Cleaned = Valid(recipients: set<nat>) | Invalid(code: string)

  const MissingRecipient: string := "missing_recipient"

  function CleanRecipients(selected: set<nat>, broadcast: bool, selectable: set<nat>): Cleaned
  {
    if !broadcast && selected == {} then Invalid(MissingRecipient)
    else if broadcast then Valid(selectable)
    else Valid(selected)
  }

  /**
   * An empty selection is rejected with `missing_recipient` exactly when the
   * message is not a broadcast; a broadcast goes to every selectable
   * recipient whatever was selected; otherwise the selection stands.
   */
  lemma CleanRecipientsCases(selected: set<nat>, broadcast: bool, selectable: set<nat>)
    ensures CleanRecipients(selected, broadcast, selectable).Invalid? <==> !broadcast && selected == {}
    ensures CleanRecipients(selected, broadcast, selectable).Invalid? ==>
              CleanRecipients(selected, broadcast, selectable).code == MissingRecipient
    ensures broadcast ==> CleanRecipients(selected, broadcast, selectable) == Valid(selectable)
    ensures !broadcast && selected != {} ==> CleanRecipients(selected, broadcast, selectable) == Valid(selected)
  {
  }

  /** Accepted recipients are always among the selectable ones when the selection is. */
  lemma CleanedWithinSelectable(selected: set<nat>, broadcast: bool, selectable: set<nat>)
    requires selected <= selectable
    ensures CleanRecipients(selected, broadcast, selectable).Valid? ==>
              CleanRecipients(selected, broadcast, selectable).recipients <= selectable
  {
  }
}
