/**
 * The older `process_direct_reply_messages` of cosinnus_message/utils.py. It
 * decides in a different order from the current pass: the token is checked
 * before the sender, a missing token or an unknown hash deletes the item
 * without any mail, the hash is lower-cased before the lookup, and a hash
 * shared by two postman messages raises out of the pass.
 */
module LegacyDirectReply {
  import opened Strings
  import opened ReplyText
  import opened Inbox
  import DirectReply

  /** The decision the loop body of the older pass takes for one item. */
  function Decide(env: Env, item: InboxItem): Decision
  {
    DecideOn(env, ParseToken(item.text), SenderEmail(env, item), CleanText(item.text))
  }

  /** The decision, given the item's token, its sender address and its cleaned text. */
  function DecideOn(env: Env, token: Option<ReplyToken>, sender: Option<string>, text: string): Decision
  {
    if token.None? then Discard
    else
      var hash := LowerAscii(token.value.hash);
      if token.value.portalId != env.currentPortal then Retain
      else
        var hits := WithHash(env.postman, hash);
        if |hits| == 0 then Discard
        else if |hits| > 1 then Abort
        else if sender.None? then Discard
        else
          var email := sender.value;
          var users := ActiveWithEmail(env.accounts, email);
          if |users| > 1 then Abort
          else if |users| == 0 || hits[0].recipient != Some(users[0].id) then
            DiscardWithMail(ErrorMail(email, text, WrongAccount))
          else if IsBlank(text) || !env.replyAccepted(hits[0], users[0].id, text) then
            DiscardWithMail(ErrorMail(email, text, ProcessingError))
          else DiscardAfterReply(Reply(hits[0].id, users[0].id, text))
  }

  function Decider(env: Env): InboxItem -> Decision
  {
    item => Decide(env, item)
  }

  lemma DeciderIs(env: Env, item: InboxItem)
    ensures Decider(env)(item) == Decide(env, item)
  {
  }

  /**
   * The loop body of the older pass for one item: appends to the delete list,
   * the error mails and the replies, or reports the exception that ends the
   * pass.
   */
  method HandleItem(env: Env, item: InboxItem, toDelete: seq<nat>, mails: seq<ErrorMail>, replies: seq<Reply>)
    returns (toDelete': seq<nat>, mails': seq<ErrorMail>, replies': seq<Reply>, raised: bool)
    ensures raised <==> Decide(env, item).Abort?
    ensures !raised ==>
              PassLog(toDelete', mails', replies', false) == Step(PassLog(toDelete, mails, replies, false), item, Decide(env, item))
  {
    toDelete', mails', replies', raised := toDelete, mails, replies, false;
    var token := ParseToken(item.text);
    if token.None? {
      toDelete' := toDelete' + [item.id];
      return;
    }
    var hash := LowerAscii(token.value.hash);
    if token.value.portalId != env.currentPortal {
      return;
    }
    toDelete' := toDelete' + [item.id];
    var hits := WithHash(env.postman, hash);
    if |hits| == 0 {
      return;
    } else if |hits| > 1 {
      raised := true;
      return;
    }
    var sender := SenderEmail(env, item);
    if sender.None? {
      return;
    }
    var email := sender.value;
    var users := ActiveWithEmail(env.accounts, email);
    if |users| > 1 {
      raised := true;
      return;
    }
    var senderEmailBad := |users| == 0;
    var text := CleanReplyMessageQuotation(item.text);
    if senderEmailBad || hits[0].recipient != Some(users[0].id) {
      mails' := mails' + [ErrorMail(email, text, WrongAccount)];
      return;
    }
    var replied := false;
    if !IsBlank(text) {
      replied := env.replyAccepted(hits[0], users[0].id, text);
    }
    if !replied {
      mails' := mails' + [ErrorMail(email, text, ProcessingError)];
      return;
    }
    replies' := replies' + [Reply(hits[0].id, users[0].id, text)];
  }

  /** The whole older pass: the log it builds and the ids it finally deletes. */
  method ProcessDirectReplyMessages(env: Env, inbox: seq<InboxItem>) returns (log: PassLog, deleted: seq<nat>)
    ensures log == Run(inbox, Decider(env))
    ensures deleted == Deleted(log, env.debugLocal)
    ensures env.debugLocal ==> deleted == []
  {
    var toDelete: seq<nat> := [];
    var mails: seq<ErrorMail> := [];
    var replies: seq<Reply> := [];
    var aborted := false;
    var i := 0;
    while i < |inbox|
      invariant 0 <= i <= |inbox|
      invariant PassLog(toDelete, mails, replies, false) == Run(inbox[..i], Decider(env))
    {
      var item := inbox[i];
      var toDelete', mails', replies', raised := HandleItem(env, item, toDelete, mails, replies);
      DeciderIs(env, item);
      if raised {
        AbortEndsPass(inbox, Decider(env), i, PassLog(toDelete, mails, replies, false));
        aborted := true;
        break;
      }
      RunSnoc(inbox, Decider(env), i, PassLog(toDelete, mails, replies, false));
      toDelete, mails, replies := toDelete', mails', replies';
      i := i + 1;
    }
    if !aborted {
      assert inbox[..i] == inbox;
    }
    log := PassLog(toDelete, mails, replies, aborted);
    deleted := if log.aborted || env.debugLocal then [] else log.toDelete;
  }

  // --- what the older pass promises per item ---------------------------------

  /** An item without a token is deleted and no mail is sent. */
  lemma NoTokenDeletedSilently(env: Env, item: InboxItem)
    requires ParseToken(item.text).None?
    ensures Decide(env, item) == Discard
  {
  }

  /** An item is kept exactly when its token names another portal; the sender is not consulted. */
  lemma RetainedIffOtherPortal(env: Env, item: InboxItem)
    ensures Decide(env, item).Retain? <==>
            ParseToken(item.text).Some? && ParseToken(item.text).value.portalId != env.currentPortal
  {
  }

  /**
   * The hash is looked up lower-cased: no postman message with the
   * lower-cased hash deletes the item silently, and more than one stops the pass.
   */
  lemma LookupUsesLowerCasedHash(env: Env, item: InboxItem)
    requires ParseToken(item.text).Some? && ParseToken(item.text).value.portalId == env.currentPortal
    ensures var hits := WithHash(env.postman, LowerAscii(ParseToken(item.text).value.hash));
            && (|hits| == 0 ==> Decide(env, item) == Discard)
            && (|hits| > 1 ==> Decide(env, item) == Abort)
  {
  }

  /** The sender is read only after a hash match; an unreadable sender then deletes the item without mail. */
  lemma NoSenderAfterMatchDeletedSilently(env: Env, item: InboxItem)
    requires ParseToken(item.text).Some? && ParseToken(item.text).value.portalId == env.currentPortal
    requires |WithHash(env.postman, LowerAscii(ParseToken(item.text).value.hash))| == 1
    requires SenderEmail(env, item).None?
    ensures Decide(env, item) == Discard
  {
  }

  /**
   * The only mails the older pass sends: the wrong-account mail when the
   * sender is no active account or not the recipient, and the processing-error
   * mail when the text is blank or the reply form refuses it; both go to the sender.
   */
  lemma MailsOnlyForAccountOrText(env: Env, item: InboxItem)
    ensures Decide(env, item).DiscardWithMail? ==>
            var s := SenderEmail(env, item);
            && s.Some? && Decide(env, item).mail.recipientEmail == s.value
            && Decide(env, item).mail.text == CleanText(item.text)
            && var t := ParseToken(item.text);
               var hits := WithHash(env.postman, LowerAscii(t.value.hash));
               var users := ActiveWithEmail(env.accounts, s.value);
               && |hits| == 1
               && (Decide(env, item).mail.reason == WrongAccount <==>
                     |users| == 0 || hits[0].recipient != Some(users[0].id))
               && (Decide(env, item).mail.reason == WrongAccount || Decide(env, item).mail.reason == ProcessingError)
  {
  }

  /**
   * Once the hash matches one message and the sender is readable, the
   * wrong-account mail goes exactly when no single active account with that
   * address is the recipient, and the processing-error mail exactly when that
   * account is the recipient but the text is blank or the reply is refused.
   */
  lemma AccountOrTextMailIff(env: Env, item: InboxItem)
    requires ParseToken(item.text).Some? && ParseToken(item.text).value.portalId == env.currentPortal
    requires |WithHash(env.postman, LowerAscii(ParseToken(item.text).value.hash))| == 1
    requires SenderEmail(env, item).Some?
    ensures var d := Decide(env, item);
            var hit := WithHash(env.postman, LowerAscii(ParseToken(item.text).value.hash))[0];
            var users := ActiveWithEmail(env.accounts, SenderEmail(env, item).value);
            var text := CleanText(item.text);
            && (MailsFor(d, WrongAccount) <==>
                  |users| <= 1 && (|users| == 0 || hit.recipient != Some(users[0].id)))
            && (MailsFor(d, ProcessingError) <==>
                  && |users| == 1 && hit.recipient == Some(users[0].id)
                  && (IsBlank(text) || !env.replyAccepted(hit, users[0].id, text)))
  {
  }

  /**
   * The older pass creates a reply exactly when the token names this portal,
   * the lower-cased hash matches one postman message, the sender is readable
   * and is the one active account that is its recipient, the cleaned text is
   * not blank and the reply form accepts it.
   */
  lemma ReplyOnlyWhenEverythingMatches(env: Env, item: InboxItem)
    ensures Decide(env, item).DiscardAfterReply? <==>
            var t := ParseToken(item.text);
            var s := SenderEmail(env, item);
            && t.Some? && t.value.portalId == env.currentPortal && s.Some?
            && var hits := WithHash(env.postman, LowerAscii(t.value.hash));
               var users := ActiveWithEmail(env.accounts, s.value);
               var text := CleanText(item.text);
               && |hits| == 1 && |users| == 1 && hits[0].recipient == Some(users[0].id)
               && !IsBlank(text) && env.replyAccepted(hits[0], users[0].id, text)
    ensures Decide(env, item).DiscardAfterReply? ==>
            Decide(env, item).reply.text == CleanText(item.text)
  {
  }

  /**
   * The older pass stops exactly when, for this portal, the lower-cased hash
   * matches several postman messages, or it matches one and two active
   * accounts share the readable sender address (both lookups raise).
   */
  lemma AmbiguousLookupAborts(env: Env, item: InboxItem)
    ensures Decide(env, item).Abort? <==>
            var t := ParseToken(item.text);
            var s := SenderEmail(env, item);
            && t.Some? && t.value.portalId == env.currentPortal
            && var hits := WithHash(env.postman, LowerAscii(t.value.hash));
               || |hits| > 1
               || (|hits| == 1 && s.Some? && |ActiveWithEmail(env.accounts, s.value)| > 1)
  {
  }

  /**
   * The two passes part ways on an item for another portal whose sender
   * cannot be read: the current pass deletes it, the older one keeps it.
   */
  lemma VariantsDifferOnUnreadableSender(env: Env, item: InboxItem)
    requires SenderEmail(env, item).None?
    requires ParseToken(item.text).Some? && ParseToken(item.text).value.portalId != env.currentPortal
    ensures Decide(env, item) == Retain
    ensures DirectReply.Decide(env, item) == Discard
  {
  }
}
