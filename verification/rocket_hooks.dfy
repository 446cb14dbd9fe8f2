/**
 * The Rocket.Chat signal handlers of cosinnus_message/hooks.py that decide
 * something: which remote calls a membership save, a user save and a group
 * save issue, in which order. Each handler is a function from the stored
 * record (if the saved instance has an id and the lookup finds it) and the
 * instance being saved to the ordered list of remote calls.
 *
 * A lookup that finds nothing raises inside the handler's `try`, which logs
 * and returns, so it issues nothing.
 */
module RocketHooks {
  import opened Strings

  /** Membership statuses of cosinnus groups. */
  datatype MembershipStatus = Pending | Member | Admin | InvitedPending

  datatype Membership = Membership(userId: nat, groupId: nat, status: MembershipStatus, isModerator: bool)

  /** The user fields the update hook compares. */
  datatype User = User(id: nat, password: string, firstName: string, lastName: string, email: string)

  datatype GroupKind = Society | Project

  datatype Group = Group(kind: GroupKind, slug: string)

  /** A Rocket.Chat call a hook issues. */
  datatype Action =
    | Kick(membership: Membership)
    | Invite(membership: Membership)
    | AddModerator(membership: Membership)
    | RemoveModerator(membership: Membership)
    | UpdateUser(user: User, force: bool, updatePassword: bool)
    | CreateGroup(group: Group)
    | RenameGroup(group: Group)

  predicate IsPending(s: MembershipStatus)
  {
    s == Pending || s == InvitedPending
  }

  // --- handle_membership_updated ------------------------------------------------

  /**
   * The calls a membership save issues. `hasId` says whether the instance
   * already has a primary key; `stored` is what the lookup by that key finds.
   */
  function MembershipPlan(hasId: bool, stored: Option<Membership>, inst: Membership): seq<Action>
  {
    var isPending := IsPending(inst.status);
    if hasId then
      if stored.None? then []
      else
        var prev := stored.value;
        var wasPending := IsPending(prev.status);
        var userChanged := inst.userId != prev.userId;
        var groupChanged := inst.groupId != prev.groupId;
        var moderatorChanged := inst.isModerator != prev.isModerator;
        (if (isPending && !wasPending) || userChanged || groupChanged then [Kick(prev)] else [])
        + (if (wasPending && !isPending) || userChanged || groupChanged then [Invite(inst)] else [])
        + (if !isPending && moderatorChanged then
             if !prev.isModerator && inst.isModerator then [AddModerator(inst)]
             else if prev.isModerator && !inst.isModerator then [RemoveModerator(inst)]
             else []
           else [])
    else if !isPending then
      [Invite(inst)] + (if inst.isModerator then [AddModerator(inst)] else [])
    else []
  }

  /** Whether user or group of the membership changed. */
  predicate Moved(prev: Membership, inst: Membership)
  {
    inst.userId != prev.userId || inst.groupId != prev.groupId
  }

  /**
   * For an existing membership the old record is kicked exactly when the
   * membership becomes pending or moves to another user or group; the new one
   * is invited exactly when it stops being pending or moves, even when it is
   * pending; and a kick always comes before the invite.
   */
  lemma KickAndInvite(stored: Membership, inst: Membership)
    ensures var plan := MembershipPlan(true, Some(stored), inst);
            && (Kick(stored) in plan <==>
                  (IsPending(inst.status) && !IsPending(stored.status)) || Moved(stored, inst))
            && (Invite(inst) in plan <==>
                  (IsPending(stored.status) && !IsPending(inst.status)) || Moved(stored, inst))
            && (Kick(stored) in plan && Invite(inst) in plan ==> plan[0] == Kick(stored) && plan[1] == Invite(inst))
  {
    var plan := MembershipPlan(true, Some(stored), inst);
    var kicks := if (IsPending(inst.status) && !IsPending(stored.status)) || Moved(stored, inst) then [Kick(stored)] else [];
    var invites := if (IsPending(stored.status) && !IsPending(inst.status)) || Moved(stored, inst) then [Invite(inst)] else [];
    var mods := plan[|kicks| + |invites|..];
    assert plan == kicks + invites + mods;
    assert forall a :: a in mods ==> a.AddModerator? || a.RemoveModerator?;
  }

  /** A moved membership that is pending is still invited, right after the old one is kicked. */
  lemma PendingMoveStillInvites(stored: Membership, inst: Membership)
    requires Moved(stored, inst) && IsPending(inst.status)
    ensures MembershipPlan(true, Some(stored), inst) == [Kick(stored), Invite(inst)]
  {
  }

  /**
   * Moderator rights of an existing membership change only while it is not
   * pending: granted on false to true, withdrawn on true to false.
   */
  lemma ModeratorChange(stored: Membership, inst: Membership)
    ensures var plan := MembershipPlan(true, Some(stored), inst);
            && (AddModerator(inst) in plan <==> !IsPending(inst.status) && !stored.isModerator && inst.isModerator)
            && (RemoveModerator(inst) in plan <==> !IsPending(inst.status) && stored.isModerator && !inst.isModerator)
            && |plan| <= 3
  {
  }

  /**
   * A new membership issues nothing while pending; otherwise it is invited,
   * then made moderator when it is one.
   */
  lemma NewMembership(inst: Membership)
    ensures IsPending(inst.status) ==> MembershipPlan(false, None, inst) == []
    ensures !IsPending(inst.status) ==>
              MembershipPlan(false, None, inst)[0] == Invite(inst)
              && (AddModerator(inst) in MembershipPlan(false, None, inst) <==> inst.isModerator)
              && forall a :: a in MembershipPlan(false, None, inst) ==> !a.Kick? && !a.RemoveModerator?
  {
  }

  /** A save that changes nothing the hook compares issues nothing. */
  lemma UnchangedMembershipIsQuiet(stored: Membership, inst: Membership)
    requires inst.userId == stored.userId && inst.groupId == stored.groupId
    requires IsPending(inst.status) == IsPending(stored.status) && inst.isModerator == stored.isModerator
    ensures MembershipPlan(true, Some(stored), inst) == []
  {
  }

  // --- handle_user_updated ---------------------------------------------------

  /** The calls a user save issues: one update, forced when a compared field changed. */
  function UserPlan(hasId: bool, stored: Option<User>, inst: User): seq<Action>
  {
    if hasId && stored.Some? then
      var prev := stored.value;
      var force := inst.password != prev.password || inst.firstName != prev.firstName
                   || inst.lastName != prev.lastName || inst.email != prev.email;
      [UpdateUser(inst, force, inst.password != prev.password)]
    else []
  }

  /**
   * A user save issues exactly one update for an existing user and nothing
   * for a new one; the update is forced exactly when password, first name,
   * last name or email changed, and updates the password exactly when it
   * changed (which always forces it).
   */
  lemma UserUpdateFlags(hasId: bool, stored: Option<User>, inst: User)
    ensures |UserPlan(hasId, stored, inst)| == (if hasId && stored.Some? then 1 else 0)
    ensures hasId && stored.Some? ==>
              var a := UserPlan(hasId, stored, inst)[0];
              var prev := stored.value;
              && a.UpdateUser? && a.user == inst
              && (a.force <==> inst.password != prev.password || inst.firstName != prev.firstName
                               || inst.lastName != prev.lastName || inst.email != prev.email)
              && (a.updatePassword <==> inst.password != prev.password)
              && (a.updatePassword ==> a.force)
  {
  }

  // --- handle_cosinnus_society_updated / handle_cosinnus_project_updated -------

  /** The calls a society or project save issues. */
  function GroupPlan(hasId: bool, stored: Option<Group>, inst: Group): seq<Action>
  {
    if hasId then
      if stored.Some? && inst.slug != stored.value.slug then [RenameGroup(inst)] else []
    else [CreateGroup(inst)]
  }

  /**
   * A group without an id is created; one with an id is renamed exactly when
   * its slug changed; nothing else is issued.
   */
  lemma GroupCreateOrRename(hasId: bool, stored: Option<Group>, inst: Group)
    ensures GroupPlan(hasId, stored, inst) == [CreateGroup(inst)] <==> !hasId
    ensures GroupPlan(hasId, stored, inst) == [RenameGroup(inst)] <==> hasId && stored.Some? && inst.slug != stored.value.slug
    ensures |GroupPlan(hasId, stored, inst)| <= 1
  {
  }
}
