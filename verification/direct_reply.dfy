/**
 * `process_direct_reply_messages` as in cosinnus_message/utils/utils.py: one
 * pass over the mailbox store, deciding per item whether to keep it for
 * another portal, delete it, mail the sender a cause-specific error, or create
 * the reply; the collected items are deleted at the end unless `DEBUG_LOCAL`.
 */
module DirectReply {
  import opened Strings
  import opened ReplyText
  import opened Inbox

  /** The decision the loop body of the current pass takes for one item. */
  function Decide(env: Env, item: InboxItem): Decision
  {
    DecideOn(env, ParseToken(item.text), SenderEmail(env, item), CleanText(item.text))
  }

  /** The decision, given the item's token, its sender address and its cleaned text. */
  function DecideOn(env: Env, token: Option<ReplyToken>, sender: Option<string>, text: string): Decision
  {
    if sender.None? then Discard
    else
      var email := sender.value;
      if token.None? then DiscardWithMail(ErrorMail(email, text, Unmatched))
      else if token.value.portalId != env.currentPortal then Retain
      else
        var hits := WithHash(env.postman, token.value.hash);
        if |hits| == 0 then DiscardWithMail(ErrorMail(email, text, Unmatched))
        else if |hits| > 1 then DiscardWithMail(ErrorMail(email, text, InternalError))
        else
          var users := ActiveWithEmail(env.accounts, email);
          if |users| > 1 then Abort
          else if |users| == 0 || hits[0].recipient != Some(users[0].id) then
            DiscardWithMail(ErrorMail(email, text, WrongAccount))
          else if IsBlank(text) || !env.replyAccepted(hits[0], users[0].id, text) then
            DiscardWithMail(ErrorMail(email, text, ProcessingError))
          else DiscardAfterReply(Reply(hits[0].id, users[0].id, text))
  }

  function Decider(env: Env): InboxItem -> Decision
  {
    item => Decide(env, item)
  }

  lemma DeciderIs(env: Env, item: InboxItem)
    ensures Decider(env)(item) == Decide(env, item)
  {
  }

  /**
   * The loop body for one item: appends to the delete list, the error mails
   * and the replies, or reports the exception that ends the pass.
   */
  method HandleItem(env: Env, item: InboxItem, toDelete: seq<nat>, mails: seq<ErrorMail>, replies: seq<Reply>)
    returns (toDelete': seq<nat>, mails': seq<ErrorMail>, replies': seq<Reply>, raised: bool)
    ensures raised <==> Decide(env, item).Abort?
    ensures !raised ==>
              PassLog(toDelete', mails', replies', false) == Step(PassLog(toDelete, mails, replies, false), item, Decide(env, item))
  {
    toDelete', mails', replies', raised := toDelete, mails, replies, false;
    var token := ParseToken(item.text);
    var sender := SenderEmail(env, item);
    if sender.None? {
      toDelete' := toDelete' + [item.id];
      return;
    }
    var email := sender.value;
    var text := CleanReplyMessageQuotation(item.text);
    if token.None? {
      toDelete' := toDelete' + [item.id];
      mails' := mails' + [ErrorMail(email, text, Unmatched)];
      return;
    }
    if token.value.portalId != env.currentPortal {
      return;
    }
    toDelete' := toDelete' + [item.id];
    var hits := WithHash(env.postman, token.value.hash);
    if |hits| == 0 {
      mails' := mails' + [ErrorMail(email, text, Unmatched)];
      return;
    } else if |hits| > 1 {
      mails' := mails' + [ErrorMail(email, text, InternalError)];
      return;
    }
    var users := ActiveWithEmail(env.accounts, email);
    if |users| > 1 {
      raised := true;
      return;
    }
    if |users| == 0 || hits[0].recipient != Some(users[0].id) {
      mails' := mails' + [ErrorMail(email, text, WrongAccount)];
      return;
    }
    var replied := false;
    if !IsBlank(text) {
      replied := env.replyAccepted(hits[0], users[0].id, text);
    }
    if !replied {
      mails' := mails' + [ErrorMail(email, text, ProcessingError)];
      return;
    }
    replies' := replies' + [Reply(hits[0].id, users[0].id, text)];
  }

  /** The whole pass: the log it builds and the ids it finally deletes. */
  method ProcessDirectReplyMessages(env: Env, inbox: seq<InboxItem>) returns (log: PassLog, deleted: seq<nat>)
    ensures log == Run(inbox, Decider(env))
    ensures deleted == Deleted(log, env.debugLocal)
    ensures env.debugLocal ==> deleted == []
  {
    var toDelete: seq<nat> := [];
    var mails: seq<ErrorMail> := [];
    var replies: seq<Reply> := [];
    var aborted := false;
    var i := 0;
    while i < |inbox|
      invariant 0 <= i <= |inbox|
      invariant PassLog(toDelete, mails, replies, false) == Run(inbox[..i], Decider(env))
    {
      var item := inbox[i];
      var toDelete', mails', replies', raised := HandleItem(env, item, toDelete, mails, replies);
      DeciderIs(env, item);
      if raised {
        AbortEndsPass(inbox, Decider(env), i, PassLog(toDelete, mails, replies, false));
        aborted := true;
        break;
      }
      RunSnoc(inbox, Decider(env), i, PassLog(toDelete, mails, replies, false));
      toDelete, mails, replies := toDelete', mails', replies';
      i := i + 1;
    }
    if !aborted {
      assert inbox[..i] == inbox;
    }
    log := PassLog(toDelete, mails, replies, aborted);
    deleted := if log.aborted || env.debugLocal then [] else log.toDelete;
  }

  // --- what the current pass promises per item ------------------------------

  /** An item whose From header yields no address is deleted without mail, whatever portal it names. */
  lemma NoSenderDeletedSilently(env: Env, item: InboxItem)
    requires SenderEmail(env, item).None?
    ensures Decide(env, item) == Discard
  {
  }

  /** An item is kept exactly when it has a sender and a token naming another portal. */
  lemma RetainedIffOtherPortal(env: Env, item: InboxItem)
    ensures Decide(env, item).Retain? <==>
            SenderEmail(env, item).Some? && ParseToken(item.text).Some?
            && ParseToken(item.text).value.portalId != env.currentPortal
  {
  }

  /**
   * An item with a sender that is deleted gets exactly one mail, to that
   * sender, carrying the cleaned text, unless its reply was created.
   */
  lemma OneMailPerFailure(env: Env, item: InboxItem)
    requires SenderEmail(env, item).Some?
    ensures Decide(env, item).Discard? == false
    ensures Decide(env, item).DiscardWithMail? ==>
            Decide(env, item).mail.recipientEmail == SenderEmail(env, item).value
            && Decide(env, item).mail.text == CleanText(item.text)
  {
    MailGoesToSender(env, ParseToken(item.text), SenderEmail(env, item).value, CleanText(item.text));
  }

  lemma MailGoesToSender(env: Env, token: Option<ReplyToken>, email: string, text: string)
    ensures DecideOn(env, token, Some(email), text) != Discard
    ensures DecideOn(env, token, Some(email), text).DiscardWithMail? ==>
            DecideOn(env, token, Some(email), text).mail == ErrorMail(email, text, DecideOn(env, token, Some(email), text).mail.reason)
  {
  }

  /**
   * Each failure cause carries its own reason, and each reason has exactly
   * one cause: no token or an unknown hash; a hash on several messages; no
   * single active account that is the recipient; blank text or a refused reply.
   */
  lemma ReasonPerCause(env: Env, item: InboxItem)
    requires SenderEmail(env, item).Some?
    ensures ParseToken(item.text).None? ==> MailsFor(Decide(env, item), Unmatched)
    ensures var t := ParseToken(item.text);
            t.Some? && t.value.portalId == env.currentPortal ==>
              var d := Decide(env, item);
              var hits := WithHash(env.postman, t.value.hash);
              var users := ActiveWithEmail(env.accounts, SenderEmail(env, item).value);
              var text := CleanText(item.text);
              && (MailsFor(d, Unmatched) <==> |hits| == 0)
              && (MailsFor(d, InternalError) <==> |hits| > 1)
              && (MailsFor(d, WrongAccount) <==>
                    |hits| == 1 && |users| <= 1 && (|users| == 0 || hits[0].recipient != Some(users[0].id)))
              && (MailsFor(d, ProcessingError) <==>
                    && |hits| == 1 && |users| == 1 && hits[0].recipient == Some(users[0].id)
                    && (IsBlank(text) || !env.replyAccepted(hits[0], users[0].id, text)))
  {
    var t := ParseToken(item.text);
    if t.Some? && t.value.portalId == env.currentPortal {
      ReasonsOn(env, t.value, SenderEmail(env, item).value, CleanText(item.text));
    }
  }

  /** The reasons of `ReasonPerCause`, for a token naming this portal, given the sender address and the cleaned text. */
  lemma ReasonsOn(env: Env, token: ReplyToken, email: string, text: string)
    requires token.portalId == env.currentPortal
    ensures var d := DecideOn(env, Some(token), Some(email), text);
            var hits := WithHash(env.postman, token.hash);
            var users := ActiveWithEmail(env.accounts, email);
            && (MailsFor(d, Unmatched) <==> |hits| == 0)
            && (MailsFor(d, InternalError) <==> |hits| > 1)
            && (MailsFor(d, WrongAccount) <==>
                  |hits| == 1 && |users| <= 1 && (|users| == 0 || hits[0].recipient != Some(users[0].id)))
            && (MailsFor(d, ProcessingError) <==>
                  && |hits| == 1 && |users| == 1 && hits[0].recipient == Some(users[0].id)
                  && (IsBlank(text) || !env.replyAccepted(hits[0], users[0].id, text)))
  {
  }

  /**
   * A reply is created exactly when the token names this portal, its hash
   * matches one postman message, the sender is the one active account that is
   * that message's recipient, the cleaned text is not blank and the reply form
   * accepts it.
   */
  lemma ReplyOnlyWhenEverythingMatches(env: Env, item: InboxItem)
    ensures Decide(env, item).DiscardAfterReply? <==>
            var t := ParseToken(item.text);
            var s := SenderEmail(env, item);
            && s.Some? && t.Some? && t.value.portalId == env.currentPortal
            && var hits := WithHash(env.postman, t.value.hash);
               var users := ActiveWithEmail(env.accounts, s.value);
               var text := CleanText(item.text);
               && |hits| == 1 && |users| == 1 && hits[0].recipient == Some(users[0].id)
               && !IsBlank(text) && env.replyAccepted(hits[0], users[0].id, text)
    ensures Decide(env, item).DiscardAfterReply? ==>
            Decide(env, item).reply.text == CleanText(item.text)
  {
  }

  /** A sender address shared by two active accounts stops the pass (the lookup raises). */
  lemma AmbiguousSenderAborts(env: Env, item: InboxItem)
    ensures Decide(env, item).Abort? <==>
            var t := ParseToken(item.text);
            var s := SenderEmail(env, item);
            && s.Some? && t.Some? && t.value.portalId == env.currentPortal
            && |WithHash(env.postman, t.value.hash)| == 1
            && |ActiveWithEmail(env.accounts, s.value)| > 1
  {
  }

  /**
   * Over a whole pass that is not cut short and not under `DEBUG_LOCAL`, an
   * item is deleted exactly when it is not addressed, by a parsed sender, to
   * another portal.
   */
  lemma PassDeletesAllButOtherPortals(env: Env, inbox: seq<InboxItem>)
    requires !env.debugLocal
    requires forall k :: 0 <= k < |inbox| ==> !Decide(env, inbox[k]).Abort?
    requires forall j, k :: 0 <= j < k < |inbox| ==> inbox[j].id != inbox[k].id
    ensures forall k :: 0 <= k < |inbox| ==>
              (inbox[k].id in Deleted(Run(inbox, Decider(env)), env.debugLocal) <==>
               !(SenderEmail(env, inbox[k]).Some? && ParseToken(inbox[k].text).Some?
                 && ParseToken(inbox[k].text).value.portalId != env.currentPortal))
  {
    forall k | 0 <= k < |inbox| ensures !Decider(env)(inbox[k]).Abort? {
      assert Decider(env)(inbox[k]) == Decide(env, inbox[k]);
    }
    DeleteListIsNonRetained(inbox, Decider(env));
    forall k | 0 <= k < |inbox|
      ensures Decider(env)(inbox[k]).Retain? <==>
              (SenderEmail(env, inbox[k]).Some? && ParseToken(inbox[k].text).Some?
               && ParseToken(inbox[k].text).value.portalId != env.currentPortal)
    {
      RetainedIffOtherPortal(env, inbox[k]);
    }
  }
}
