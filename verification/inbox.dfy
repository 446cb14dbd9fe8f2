/**
 * What the direct-reply pass works on and what it produces, shared by the
 * current pass (cosinnus_message/utils/utils.py) and the older one
 * (cosinnus_message/utils.py).
 *
 * The mailbox store, the postman message table and the user table are given
 * as sequences; the `EMAIL_RE` sender extraction and the reply form's
 * validation are given as functions, since their behaviour is outside this
 * model. Each inbox item gets a `Decision`; the pass is the left fold of
 * those decisions over the inbox (`Run`), stopping at an uncaught exception.
 */
module Inbox {
  import opened Strings

  /** A django_mailbox message: its id, its From header and its plain-text body. */
  datatype InboxItem = InboxItem(id: nat, fromHeader: string, text: string)

  /** A postman message that was sent out by email with a direct-reply hash. */
  datatype PostmanMessage = PostmanMessage(id: nat, directReplyHash: string, recipient: Option<nat>)

  /** A user account. */
  datatype Account = Account(id: nat, email: string, isActive: bool)

  /** The reason strings of `send_direct_reply_error_mail`. */
  datatype Reason =
    | Unmatched        // "Your reply could not be matched to an existing message."
    | InternalError    // "An internal error occured."
    | WrongAccount     // "The email adress you sent the reply from is not the one ..."
    | ProcessingError  // "There was an error when processing your message text!"

  datatype ErrorMail = ErrorMail(recipientEmail: string, text: string, reason: Reason)

  /** A reply created through the reply form: parent postman message, replying user, body. */
  datatype Reply = Reply(parentId: nat, userId: nat, text: string)

  /** What one pass does with one inbox item. */
  datatype Decision =
    | Retain                              // left in the mailbox for another portal
    | Discard                             // deleted, no mail
    | DiscardWithMail(mail: ErrorMail)    // deleted, one error mail sent
    | DiscardAfterReply(reply: Reply)     // deleted, a reply created
    | Abort                               // an uncaught exception ends the pass

  /** The decision deletes the item and sends one error mail with the given reason. */
  predicate MailsFor(d: Decision, r: Reason)
  {
    d.DiscardWithMail? && d.mail.reason == r
  }

  /** `messages_to_delete`, the mails and replies issued so far, and whether the pass was cut short. */
  datatype PassLog = PassLog(toDelete: seq<nat>, mails: seq<ErrorMail>, replies: seq<Reply>, aborted: bool)

  /** Everything the pass consults besides the inbox. */
  datatype Env = Env(
    currentPortal: nat,
    postman: seq<PostmanMessage>,
    accounts: seq<Account>,
    extractEmail: string -> Option<string>,       // EMAIL_RE.search(from_header).group()
    replyAccepted: (PostmanMessage, nat, string) -> bool,  // reply_to_postman_message
    debugLocal: bool)

  /** `PostmanMessage.objects.filter(direct_reply_hash=hash)` */
  function WithHash(postman: seq<PostmanMessage>, hash: string): (r: seq<PostmanMessage>)
    ensures forall k :: 0 <= k < |r| ==> r[k] in postman && r[k].directReplyHash == hash
    ensures forall m :: m in postman && m.directReplyHash == hash ==> m in r
  {
    if postman == [] then []
    else (if postman[0].directReplyHash == hash then [postman[0]] else []) + WithHash(postman[1..], hash)
  }

  /** `USER_MODEL.objects.filter(is_active=True, email__iexact=email)`, with ASCII case folding. */
  function ActiveWithEmail(accounts: seq<Account>, email: string): (r: seq<Account>)
    ensures forall k :: 0 <= k < |r| ==> r[k] in accounts && r[k].isActive && LowerAscii(r[k].email) == LowerAscii(email)
    ensures forall u :: u in accounts && u.isActive && LowerAscii(u.email) == LowerAscii(email) ==> u in r
  {
    if accounts == [] then []
    else
      (if accounts[0].isActive && LowerAscii(accounts[0].email) == LowerAscii(email) then [accounts[0]] else [])
      + ActiveWithEmail(accounts[1..], email)
  }

  /** The sender address, when `EMAIL_RE` finds a non-empty one in the From header. */
  function SenderEmail(env: Env, item: InboxItem): Option<string>
  {
    var m := env.extractEmail(item.fromHeader);
    if m.Some? && m.value != "" then m else None
  }

  /** What one item's decision adds to the log. */
  function Step(log: PassLog, item: InboxItem, d: Decision): PassLog
  {
    match d
    case Retain => log
    case Discard => log.(toDelete := log.toDelete + [item.id])
    case DiscardWithMail(m) => log.(toDelete := log.toDelete + [item.id], mails := log.mails + [m])
    case DiscardAfterReply(r) => log.(toDelete := log.toDelete + [item.id], replies := log.replies + [r])
    case Abort => log.(aborted := true)
  }

  /** The pass over `items` in order, stopping at the first `Abort`. */
  function Run(items: seq<InboxItem>, decide: InboxItem -> Decision): PassLog
  {
    if items == [] then PassLog([], [], [], false)
    else
      var prev := Run(items[..|items| - 1], decide);
      if prev.aborted then prev else Step(prev, items[|items| - 1], decide(items[|items| - 1]))
  }

  /** What the final `.delete()` removes: nothing under `DEBUG_LOCAL` or after an exception. */
  function Deleted(log: PassLog, debugLocal: bool): seq<nat>
  {
    if log.aborted || debugLocal then [] else log.toDelete
  }

  // --- properties of every pass -------------------------------------------

  /** While the pass goes on, one more item adds that item's step. */
  lemma RunSnoc(items: seq<InboxItem>, decide: InboxItem -> Decision, k: nat, log: PassLog)
    requires k < |items| && log == Run(items[..k], decide) && !log.aborted
    ensures Run(items[..k + 1], decide) == Step(log, items[k], decide(items[k]))
  {
    assert items[..k + 1][..k] == items[..k];
  }

  /** Once the pass is cut short, later items change nothing. */
  lemma {:induction false} AbortIsFinal(items: seq<InboxItem>, decide: InboxItem -> Decision, k: nat)
    requires k <= |items|
    requires Run(items[..k], decide).aborted
    ensures Run(items, decide) == Run(items[..k], decide)
  {
    if k < |items| {
      assert items[..|items| - 1][..k] == items[..k];
      AbortIsFinal(items[..|items| - 1], decide, k);
    } else {
      assert items[..k] == items;
    }
  }

  /** An item that raises ends the pass with what was collected before it. */
  lemma AbortEndsPass(items: seq<InboxItem>, decide: InboxItem -> Decision, k: nat, log: PassLog)
    requires k < |items| && log == Run(items[..k], decide) && !log.aborted
    requires decide(items[k]).Abort?
    ensures Run(items, decide) == log.(aborted := true)
  {
    RunSnoc(items, decide, k, log);
    AbortIsFinal(items, decide, k + 1);
  }

  /** The pass is cut short exactly when some item's decision is an abort. */
  lemma {:induction false} AbortedIff(items: seq<InboxItem>, decide: InboxItem -> Decision)
    ensures Run(items, decide).aborted <==> exists k :: 0 <= k < |items| && decide(items[k]).Abort?
  {
    if items != [] {
      var init := items[..|items| - 1];
      AbortedIff(init, decide);
      if exists k :: 0 <= k < |init| && decide(init[k]).Abort? {
        var k :| 0 <= k < |init| && decide(init[k]).Abort?;
        assert items[k] == init[k];
      }
      if exists k :: 0 <= k < |items| && decide(items[k]).Abort? {
        var k :| 0 <= k < |items| && decide(items[k]).Abort?;
        if k < |init| {
          assert init[k] == items[k];
        }
      }
    }
  }

  /** Every mail and every reply belongs to its own deleted item. */
  lemma {:induction false} MailsAndRepliesOnlyForDeleted(items: seq<InboxItem>, decide: InboxItem -> Decision)
    ensures |Run(items, decide).mails| + |Run(items, decide).replies| <= |Run(items, decide).toDelete|
  {
    if items != [] {
      MailsAndRepliesOnlyForDeleted(items[..|items| - 1], decide);
    }
  }

  /** Ids in the delete list are ids of items of the inbox. */
  lemma {:induction false} DeletedAreItems(items: seq<InboxItem>, decide: InboxItem -> Decision)
    ensures forall x :: x in Run(items, decide).toDelete ==> exists k :: 0 <= k < |items| && items[k].id == x
  {
    if items != [] {
      var init := items[..|items| - 1];
      DeletedAreItems(init, decide);
      forall x | x in Run(items, decide).toDelete
        ensures exists k :: 0 <= k < |items| && items[k].id == x
      {
        if x in Run(init, decide).toDelete {
          var k :| 0 <= k < |init| && init[k].id == x;
          assert items[k] == init[k];
        } else {
          assert items[|items| - 1].id == x;
        }
      }
    }
  }

  /**
   * In a pass that runs to its end over items with distinct ids, an item is
   * in the delete list exactly when its decision is not to retain it.
   */
  lemma {:induction false} DeleteListIsNonRetained(items: seq<InboxItem>, decide: InboxItem -> Decision)
    requires forall k :: 0 <= k < |items| ==> !decide(items[k]).Abort?
    requires forall j, k :: 0 <= j < k < |items| ==> items[j].id != items[k].id
    ensures !Run(items, decide).aborted
    ensures forall k :: 0 <= k < |items| ==> (items[k].id in Run(items, decide).toDelete <==> !decide(items[k]).Retain?)
  {
    if items != [] {
      var init := items[..|items| - 1];
      var last := items[|items| - 1];
      DeleteListIsNonRetained(init, decide);
      DeletedAreItems(init, decide);
      forall k | 0 <= k < |init| ensures init[k].id != last.id {
        assert init[k] == items[k];
      }
      assert last.id !in Run(init, decide).toDelete;
      forall k | 0 <= k < |items|
        ensures items[k].id in Run(items, decide).toDelete <==> !decide(items[k]).Retain?
      {
        if k < |init| {
          assert items[k] == init[k];
          assert items[k].id != last.id;
        }
      }
    }
  }

  /** In a pass that runs to its end, the mails are exactly those the items' decisions send. */
  lemma {:induction false} MailsAreDecided(items: seq<InboxItem>, decide: InboxItem -> Decision)
    requires forall k :: 0 <= k < |items| ==> !decide(items[k]).Abort?
    ensures forall m :: m in Run(items, decide).mails <==> exists k :: 0 <= k < |items| && decide(items[k]) == DiscardWithMail(m)
  {
    if items != [] {
      var init := items[..|items| - 1];
      MailsAreDecided(init, decide);
      AbortedIff(init, decide);
      forall m
        ensures m in Run(items, decide).mails <==> exists k :: 0 <= k < |items| && decide(items[k]) == DiscardWithMail(m)
      {
        if exists k :: 0 <= k < |items| && decide(items[k]) == DiscardWithMail(m) {
          var k :| 0 <= k < |items| && decide(items[k]) == DiscardWithMail(m);
          if k < |init| {
            assert init[k] == items[k];
          }
        }
        if m in Run(init, decide).mails {
          var k :| 0 <= k < |init| && decide(init[k]) == DiscardWithMail(m);
          assert items[k] == init[k];
        }
      }
    }
  }
}
