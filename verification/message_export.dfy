/**
 * The Rocket.Chat export of `MessageExportView` (cosinnus_message/api/views.py):
 * which postman messages open a channel, the rows written to channels.csv,
 * and the message and upload rows of one channel.
 *
 * The message table is a sequence of records in query order; `slugify` is a
 * parameter, since Django's implementation is outside this model.
 */
module MessageExport {
  import opened Strings
  import opened MessageFormat

  /** A postman message as the export reads it. */
  datatype MessageRec = MessageRec(
    id: nat,
    senderId: nat,
    recipientId: Option<nat>,
    subject: string,
    body: string,
    sentAt: int,                     // `sent_at`, as the exported millisecond timestamp
    threadId: Option<nat>,
    parentId: Option<nat>,
    accepted: bool,                  // `moderation_status == STATUS_ACCEPTED`
    senderDeleted: bool,             // `sender_deleted_at` is set
    recipientDeleted: bool,          // `recipient_deleted_at` is set
    conversation: Option<seq<nat>>,  // the multi conversation's participant ids, in query order
    masterForSender: bool,
    uploads: seq<string>)            // the download URL of each attached file

  /** The filters both queries share: sent by an exported user, accepted, not deleted on both sides. */
  predicate Exportable(m: MessageRec, users: set<nat>)
  {
    m.senderId in users && m.accepted && !(m.senderDeleted && m.recipientDeleted)
  }

  predicate UnthreadedOrSelfThreaded(m: MessageRec)
  {
    m.threadId.None? || m.threadId == Some(m.id)
  }

  /** The query of `_get_channels`: a message that opens a channel. */
  predicate IsChannelRoot(m: MessageRec, users: set<nat>)
  {
    && Exportable(m, users)
    && m.parentId.None?
    && (|| (m.conversation.None? && UnthreadedOrSelfThreaded(m))
        || (m.conversation.Some? && m.masterForSender && UnthreadedOrSelfThreaded(m)))
  }

  datatype ChannelKind = Private | Direct

  /** A row of channels.csv together with the message id that opens it. */
  datatype ChannelRow = ChannelRow(id: nat, name: string, creator: nat, kind: ChannelKind, members: string)

  /** The elements of `xs` that `keep` accepts, in order. */
  function Filtered<A(!new)>(xs: seq<A>, keep: A -> bool): (r: seq<A>)
    ensures forall x :: x in r <==> x in xs && keep(x)
  {
    if xs == [] then []
    else (if keep(xs[0]) then [xs[0]] else []) + Filtered(xs[1..], keep)
  }

  /** Filtering keeps each accepted element as often as it occurs, and drops the rest. */
  lemma {:induction false} FilteredCounts<A(!new)>(xs: seq<A>, keep: A -> bool)
    ensures forall x :: multiset(Filtered(xs, keep))[x] == if keep(x) then multiset(xs)[x] else 0
  {
    if xs != [] {
      FilteredCounts(xs[1..], keep);
      assert xs == [xs[0]] + xs[1..];
    }
  }

  /** Filtering keeps the order: it distributes over concatenation. */
  lemma {:induction false} FilteredAppend<A(!new)>(xs: seq<A>, ys: seq<A>, keep: A -> bool)
    ensures Filtered(xs + ys, keep) == Filtered(xs, keep) + Filtered(ys, keep)
  {
    if xs != [] {
      assert (xs + ys)[0] == xs[0] && (xs + ys)[1..] == xs[1..] + ys;
      FilteredAppend(xs[1..], ys, keep);
    } else {
      assert xs + ys == ys;
    }
  }

  /** The participants of a conversation that are exported users, in order. */
  function Participants(conversation: seq<nat>, users: set<nat>): (r: seq<nat>)
    ensures forall x :: x in r <==> x in conversation && x in users
  {
    Filtered(conversation, x => x in users)
  }

  /**
   * The listed participants keep the conversation's order and multiplicity:
   * the filter distributes over concatenation, and each exported user occurs
   * as often as in the conversation.
   */
  lemma ParticipantsKeepOrderAndCount(c1: seq<nat>, c2: seq<nat>, users: set<nat>)
    ensures Participants(c1 + c2, users) == Participants(c1, users) + Participants(c2, users)
    ensures forall x :: multiset(Participants(c1, users))[x] == if x in users then multiset(c1)[x] else 0
  {
    FilteredAppend(c1, c2, x => x in users);
    FilteredCounts(c1, x => x in users);
  }

  /** `str(id)` of each id. */
  function Rendered(ids: seq<nat>): (r: seq<string>)
    ensures |r| == |ids|
    ensures forall k :: 0 <= k < |r| ==> r[k] == NatToString(ids[k])
  {
    if ids == [] then [] else [NatToString(ids[0])] + Rendered(ids[1..])
  }

  /** `int(piece)` of each piece. */
  function Parsed(pieces: seq<string>): (r: seq<nat>)
    ensures |r| == |pieces|
    ensures forall k :: 0 <= k < |r| ==> r[k] == DecimalValue(pieces[k])
  {
    if pieces == [] then [] else [DecimalValue(pieces[0])] + Parsed(pieces[1..])
  }

  /** The `;`-joined participant field of a private channel. */
  function MemberField(ids: seq<nat>): string
  {
    JoinWith(';', Rendered(ids))
  }

  /** The row `_get_channels` appends for one channel-opening message, if any. */
  function ChannelOf(m: MessageRec, users: set<nat>, slugify: string -> string): Option<ChannelRow>
  {
    if m.conversation.Some? then
      var members := MemberField(Participants(m.conversation.value, users));
      if members != "" then
        Some(ChannelRow(m.id, slugify(m.subject) + "-" + NatToString(m.id), m.senderId, Private, members))
      else None
    else if m.senderId in users && m.recipientId.Some? && m.recipientId.value in users then
      var r := m.recipientId.value;
      Some(ChannelRow(m.id, slugify(NatToString(m.senderId) + " x " + NatToString(r)), m.senderId, Direct, NatToString(r)))
    else None
  }

  /** What one message of the table adds to channels.csv. */
  function RowsOf(m: MessageRec, users: set<nat>, slugify: string -> string): seq<ChannelRow>
  {
    if IsChannelRoot(m, users) && ChannelOf(m, users, slugify).Some? then [ChannelOf(m, users, slugify).value] else []
  }

  /** A channel-opening message with a row adds exactly that row. */
  lemma RowOfRoot(m: MessageRec, users: set<nat>, slugify: string -> string)
    requires IsChannelRoot(m, users) && ChannelOf(m, users, slugify).Some?
    ensures RowsOf(m, users, slugify) == [ChannelOf(m, users, slugify).value]
  {
  }

  /** The channel rows of the whole table, in table order. */
  function Channels(msgs: seq<MessageRec>, users: set<nat>, slugify: string -> string): seq<ChannelRow>
  {
    if msgs == [] then []
    else Channels(msgs[..|msgs| - 1], users, slugify) + RowsOf(msgs[|msgs| - 1], users, slugify)
  }

  /** `_get_channels`: one pass over the channel-opening messages, appending rows. */
  method GetChannels(msgs: seq<MessageRec>, users: set<nat>, slugify: string -> string) returns (channels: seq<ChannelRow>)
    ensures channels == Channels(msgs, users, slugify)
  {
    channels := [];
    var i := 0;
    while i < |msgs|
      invariant 0 <= i <= |msgs|
      invariant channels == Channels(msgs[..i], users, slugify)
    {
      var m := msgs[i];
      assert msgs[..i + 1][..i] == msgs[..i];
      i := i + 1;
      if !IsChannelRoot(m, users) {
        continue;
      }
      if m.conversation.Some? {
        var members := MemberField(Participants(m.conversation.value, users));
        if members != "" {
          var name := slugify(m.subject) + "-" + NatToString(m.id);
          channels := channels + [ChannelRow(m.id, name, m.senderId, Private, members)];
        }
      } else if m.senderId in users && m.recipientId.Some? && m.recipientId.value in users {
        var r := m.recipientId.value;
        var name := slugify(NatToString(m.senderId) + " x " + NatToString(r));
        channels := channels + [ChannelRow(m.id, name, m.senderId, Direct, NatToString(r))];
      }
    }
    assert msgs[..i] == msgs;
  }

  // --- channel rows -----------------------------------------------------------

  /** A multi-conversation message opens a private channel exactly when some participant is an exported user. */
  lemma PrivateRowIff(m: MessageRec, users: set<nat>, slugify: string -> string)
    requires m.conversation.Some?
    ensures ChannelOf(m, users, slugify).Some? <==> exists p :: p in m.conversation.value && p in users
    ensures ChannelOf(m, users, slugify).Some? ==> ChannelOf(m, users, slugify).value.kind == Private
  {
    var ps := Participants(m.conversation.value, users);
    var parts := Rendered(ps);
    JoinWithEmptyIff(';', parts);
    if ps != [] {
      assert ps[0] in ps;
    }
  }

  /** Splitting a private channel's member field on `;` and parsing the pieces gives back the exported participants. */
  lemma MemberFieldRoundTrip(ids: seq<nat>)
    requires |ids| >= 1
    ensures Parsed(SplitOn(';', MemberField(ids))) == ids
  {
    var parts := Rendered(ids);
    forall k | 0 <= k < |parts| ensures ';' !in parts[k] {
      forall j | 0 <= j < |parts[k]| ensures parts[k][j] != ';' {
        assert IsDigit(parts[k][j]);
      }
    }
    SplitJoin(';', parts);
    forall k | 0 <= k < |ids| ensures DecimalValue(parts[k]) == ids[k] {
      DecimalOfNatToString(ids[k]);
    }
  }

  /** The member field of a private row lists, in order, exactly the participants that are exported users. */
  lemma PrivateMembers(m: MessageRec, users: set<nat>, slugify: string -> string)
    requires m.conversation.Some? && ChannelOf(m, users, slugify).Some?
    ensures var ps := Parsed(SplitOn(';', ChannelOf(m, users, slugify).value.members));
            && ps == Participants(m.conversation.value, users)
            && forall x :: x in ps <==> x in m.conversation.value && x in users
  {
    var ps := Participants(m.conversation.value, users);
    MemberFieldRoundTrip(ps);
  }

  /** A one-to-one message opens a direct channel exactly when sender and recipient are exported users; its member field is the recipient. */
  lemma DirectRowIff(m: MessageRec, users: set<nat>, slugify: string -> string)
    requires m.conversation.None?
    ensures ChannelOf(m, users, slugify).Some? <==>
            m.senderId in users && m.recipientId.Some? && m.recipientId.value in users
    ensures ChannelOf(m, users, slugify).Some? ==>
            ChannelOf(m, users, slugify).value.kind == Direct
            && DecimalValue(ChannelOf(m, users, slugify).value.members) == m.recipientId.value
  {
    if m.recipientId.Some? {
      DecimalOfNatToString(m.recipientId.value);
    }
  }

  /** Every row belongs to a channel-opening message of the table, and there are no more rows than messages. */
  lemma {:induction false} ChannelsAreRoots(msgs: seq<MessageRec>, users: set<nat>, slugify: string -> string)
    ensures |Channels(msgs, users, slugify)| <= |msgs|
    ensures forall row :: row in Channels(msgs, users, slugify) ==>
              exists k :: 0 <= k < |msgs| && IsChannelRoot(msgs[k], users) && ChannelOf(msgs[k], users, slugify) == Some(row)
  {
    if msgs != [] {
      var init := msgs[..|msgs| - 1];
      var last := msgs[|msgs| - 1];
      var before := Channels(init, users, slugify);
      var added := RowsOf(last, users, slugify);
      ChannelsAreRoots(init, users, slugify);
      assert Channels(msgs, users, slugify) == before + added;
      forall row | row in before + added
        ensures exists k :: 0 <= k < |msgs| && IsChannelRoot(msgs[k], users) && ChannelOf(msgs[k], users, slugify) == Some(row)
      {
        if row in before {
          var k :| 0 <= k < |init| && IsChannelRoot(init[k], users) && ChannelOf(init[k], users, slugify) == Some(row);
          assert msgs[k] == init[k];
        } else {
          assert row in added;
          assert IsChannelRoot(msgs[|msgs| - 1], users) && ChannelOf(msgs[|msgs| - 1], users, slugify) == Some(row);
        }
      }
    }
  }

  /** Every channel-opening message of the table that yields a row has its row in the output. */
  lemma {:induction false} RootsHaveChannels(msgs: seq<MessageRec>, users: set<nat>, slugify: string -> string)
    ensures forall k :: 0 <= k < |msgs| && IsChannelRoot(msgs[k], users) && ChannelOf(msgs[k], users, slugify).Some? ==>
              ChannelOf(msgs[k], users, slugify).value in Channels(msgs, users, slugify)
  {
    if msgs != [] {
      var init := msgs[..|msgs| - 1];
      var before := Channels(init, users, slugify);
      var added := RowsOf(msgs[|msgs| - 1], users, slugify);
      RootsHaveChannels(init, users, slugify);
      assert Channels(msgs, users, slugify) == before + added;
      forall k | 0 <= k < |msgs| && IsChannelRoot(msgs[k], users) && ChannelOf(msgs[k], users, slugify).Some?
        ensures ChannelOf(msgs[k], users, slugify).value in before + added
      {
        if k < |init| {
          assert msgs[k] == init[k];
        } else {
          RowOfRoot(msgs[k], users, slugify);
        }
      }
    }
  }

  // --- the messages of one channel --------------------------------------------

  /** The query of `_get_messages` for the channel opened by message `channelId`. */
  predicate InChannel(m: MessageRec, channelId: nat, users: set<nat>)
  {
    Exportable(m, users) && (m.id == channelId || m.threadId == Some(channelId))
  }

  function Select(msgs: seq<MessageRec>, channelId: nat, users: set<nat>): (r: seq<MessageRec>)
    ensures forall m :: m in r <==> m in msgs && InChannel(m, channelId, users)
  {
    Filtered(msgs, m => InChannel(m, channelId, users))
  }

  /**
   * The query keeps the table's order and multiplicity: it distributes over
   * concatenation, and each selected record occurs as often as in the table.
   */
  lemma SelectKeepsOrderAndCount(t1: seq<MessageRec>, t2: seq<MessageRec>, channelId: nat, users: set<nat>)
    ensures Select(t1 + t2, channelId, users) == Select(t1, channelId, users) + Select(t2, channelId, users)
    ensures forall m :: multiset(Select(t1, channelId, users))[m]
                        == if InChannel(m, channelId, users) then multiset(t1)[m] else 0
  {
    FilteredAppend(t1, t2, m => InChannel(m, channelId, users));
    FilteredCounts(t1, m => InChannel(m, channelId, users));
  }

  predicate SortedBySentAt(s: seq<MessageRec>)
  {
    forall i, j :: 0 <= i < j < |s| ==> s[i].sentAt <= s[j].sentAt
  }

  /** Puts `m` after every record sent no later than it. */
  function Insert(m: MessageRec, s: seq<MessageRec>): (r: seq<MessageRec>)
    ensures multiset(r) == multiset(s) + multiset{m}
  {
    if s == [] then [m]
    else if m.sentAt < s[0].sentAt then [m] + s
    else
      assert s == [s[0]] + s[1..];
      [s[0]] + Insert(m, s[1..])
  }

  /** `order_by('sent_at')`, keeping table order between equal timestamps. */
  function SortBySentAt(s: seq<MessageRec>): (r: seq<MessageRec>)
    ensures multiset(r) == multiset(s)
  {
    if s == [] then []
    else
      assert s == s[..|s| - 1] + [s[|s| - 1]];
      Insert(s[|s| - 1], SortBySentAt(s[..|s| - 1]))
  }

  /** Every record of `s` is sent no earlier than `b`. */
  predicate SentFrom(s: seq<MessageRec>, b: int)
  {
    forall k :: 0 <= k < |s| ==> b <= s[k].sentAt
  }

  lemma {:induction false} InsertSentFrom(m: MessageRec, s: seq<MessageRec>, b: int)
    requires b <= m.sentAt && SentFrom(s, b)
    ensures SentFrom(Insert(m, s), b)
  {
    if s != [] && m.sentAt >= s[0].sentAt {
      InsertSentFrom(m, s[1..], b);
      assert Insert(m, s) == [s[0]] + Insert(m, s[1..]);
    }
  }

  /** A record sent no later than every record of a sorted sequence can go in front of it. */
  lemma SortedCons(x: MessageRec, t: seq<MessageRec>)
    requires SortedBySentAt(t) && SentFrom(t, x.sentAt)
    ensures SortedBySentAt([x] + t)
  {
    var r := [x] + t;
    forall i, j | 0 <= i < j < |r| ensures r[i].sentAt <= r[j].sentAt {
      assert r[j] == t[j - 1];
      if i > 0 {
        assert r[i] == t[i - 1];
      }
    }
  }

  lemma {:induction false} InsertKeepsSorted(m: MessageRec, s: seq<MessageRec>)
    requires SortedBySentAt(s)
    ensures SortedBySentAt(Insert(m, s))
  {
    if s == [] {
      assert Insert(m, s) == [m];
    } else if m.sentAt < s[0].sentAt {
      assert Insert(m, s) == [m] + s;
      assert SentFrom(s, m.sentAt) by {
        forall k | 0 <= k < |s| ensures m.sentAt <= s[k].sentAt {
          assert 0 < k ==> s[0].sentAt <= s[k].sentAt;
        }
      }
      SortedCons(m, s);
    } else {
      var tail := s[1..];
      assert SortedBySentAt(tail) by {
        forall i, j | 0 <= i < j < |tail| ensures tail[i].sentAt <= tail[j].sentAt {
          assert tail[i] == s[i + 1] && tail[j] == s[j + 1];
        }
      }
      assert SentFrom(tail, s[0].sentAt) by {
        forall k | 0 <= k < |tail| ensures s[0].sentAt <= tail[k].sentAt {
          assert tail[k] == s[k + 1];
        }
      }
      InsertKeepsSorted(m, tail);
      InsertSentFrom(m, tail, s[0].sentAt);
      assert Insert(m, s) == [s[0]] + Insert(m, tail);
      SortedCons(s[0], Insert(m, tail));
    }
  }

  lemma {:induction false} SortIsSorted(s: seq<MessageRec>)
    ensures SortedBySentAt(SortBySentAt(s))
  {
    if s != [] {
      SortIsSorted(s[..|s| - 1]);
      InsertKeepsSorted(s[|s| - 1], SortBySentAt(s[..|s| - 1]));
    }
  }

  /** The records `_get_messages` walks, in the order it walks them. */
  function ChannelMessages(msgs: seq<MessageRec>, channelId: nat, users: set<nat>): seq<MessageRec>
  {
    SortBySentAt(Select(msgs, channelId, users))
  }

  /** A channel's records are its opening message and the messages threaded to it, each once per table entry, by sending time. */
  lemma ChannelMessagesSpec(msgs: seq<MessageRec>, channelId: nat, users: set<nat>)
    ensures SortedBySentAt(ChannelMessages(msgs, channelId, users))
    ensures multiset(ChannelMessages(msgs, channelId, users)) == multiset(Select(msgs, channelId, users))
    ensures forall m :: m in ChannelMessages(msgs, channelId, users) <==> m in msgs && InChannel(m, channelId, users)
  {
    var sel := Select(msgs, channelId, users);
    SortIsSorted(sel);
    forall m ensures m in ChannelMessages(msgs, channelId, users) <==> m in sel {
      assert m in multiset(ChannelMessages(msgs, channelId, users)) <==> m in multiset(sel);
    }
  }

  /** A row of a channel's messages.csv. */
  datatype MessageRow = MessageRow(senderId: nat, timestamp: int, text: string)

  /** A row of a channel's uploads.csv. */
  datatype UploadRow = UploadRow(senderId: nat, timestamp: int, url: string)

  /** The exported text: the formatted body, under a `*subject*` line when there is a subject. */
  function ExportText(m: MessageRec): string
  {
    if m.subject != "" then "*" + m.subject + "*\n" + FormatMessage(m.body) else FormatMessage(m.body)
  }

  function MessageRowOf(m: MessageRec): MessageRow
  {
    MessageRow(m.senderId, m.sentAt, ExportText(m))
  }

  /** `f` applied to each element, in order. */
  function Mapped<A, B>(xs: seq<A>, f: A -> B): (r: seq<B>)
    ensures |r| == |xs|
    ensures forall k :: 0 <= k < |r| ==> r[k] == f(xs[k])
  {
    if xs == [] then [] else Mapped(xs[..|xs| - 1], f) + [f(xs[|xs| - 1])]
  }

  /** The message rows of records already ordered: one per record, in order. */
  function MessageRows(ordered: seq<MessageRec>): (r: seq<MessageRow>)
    ensures |r| == |ordered|
    ensures forall k :: 0 <= k < |r| ==> r[k] == MessageRowOf(ordered[k])
  {
    Mapped(ordered, MessageRowOf)
  }

  /** The upload rows of one record: its sender and timestamp with each attached file. */
  function UploadsOf(m: MessageRec): (r: seq<UploadRow>)
    ensures |r| == |m.uploads|
    ensures forall k :: 0 <= k < |r| ==> r[k] == UploadRow(m.senderId, m.sentAt, m.uploads[k])
  {
    seq(|m.uploads|, k requires 0 <= k < |m.uploads| => UploadRow(m.senderId, m.sentAt, m.uploads[k]))
  }

  function UploadRows(ordered: seq<MessageRec>): seq<UploadRow>
  {
    if ordered == [] then [] else UploadRows(ordered[..|ordered| - 1]) + UploadsOf(ordered[|ordered| - 1])
  }

  /** The text of one exported message: the subject in bold on its own line, then the formatted body. */
  method MessageText(m: MessageRec) returns (text: string)
    ensures text == ExportText(m)
  {
    text := FormatMessage(m.body);
    if m.subject != "" {
      text := "*" + m.subject + "*\n" + text;
    }
  }

  /** The inner loop of `_get_messages`: one upload row per attached file, appended in order. */
  method AppendUploads(before: seq<UploadRow>, m: MessageRec) returns (uploads: seq<UploadRow>)
    ensures uploads == before + UploadsOf(m)
  {
    uploads := before;
    var j := 0;
    while j < |m.uploads|
      invariant 0 <= j <= |m.uploads|
      invariant uploads == before + UploadsOf(m)[..j]
    {
      assert UploadsOf(m)[..j + 1] == UploadsOf(m)[..j] + [UploadRow(m.senderId, m.sentAt, m.uploads[j])];
      uploads := uploads + [UploadRow(m.senderId, m.sentAt, m.uploads[j])];
      j := j + 1;
    }
    assert UploadsOf(m)[..j] == UploadsOf(m);
  }

  /** The loop of `_get_messages` over records already selected and ordered. */
  method ExportRows(ordered: seq<MessageRec>) returns (messages: seq<MessageRow>, uploads: seq<UploadRow>)
    ensures messages == MessageRows(ordered)
    ensures uploads == UploadRows(ordered)
  {
    messages, uploads := [], [];
    var i := 0;
    while i < |ordered|
      invariant 0 <= i <= |ordered|
      invariant messages == MessageRows(ordered[..i])
      invariant uploads == UploadRows(ordered[..i])
    {
      var m := ordered[i];
      assert ordered[..i + 1][..i] == ordered[..i];
      var text := MessageText(m);
      messages := messages + [MessageRow(m.senderId, m.sentAt, text)];
      uploads := AppendUploads(uploads, m);
      i := i + 1;
    }
    assert ordered[..i] == ordered;
  }

  /** `_get_messages`: the message rows and upload rows of one channel, walking its records in order. */
  method GetMessages(msgs: seq<MessageRec>, channelId: nat, users: set<nat>)
    returns (messages: seq<MessageRow>, uploads: seq<UploadRow>)
    ensures messages == MessageRows(ChannelMessages(msgs, channelId, users))
    ensures uploads == UploadRows(ChannelMessages(msgs, channelId, users))
  {
    var ordered := ChannelMessages(msgs, channelId, users);
    messages, uploads := ExportRows(ordered);
  }

  // --- message rows ------------------------------------------------------------

  /** A channel's message rows come in ascending timestamp order. */
  lemma RowsInTimestampOrder(msgs: seq<MessageRec>, channelId: nat, users: set<nat>)
    ensures var rows := MessageRows(ChannelMessages(msgs, channelId, users));
            forall i, j :: 0 <= i < j < |rows| ==> rows[i].timestamp <= rows[j].timestamp
  {
    ChannelMessagesSpec(msgs, channelId, users);
  }

  /**
   * With a subject (on one line), the exported text's first line is the
   * subject in bold and the rest is the formatted body; without one, the text
   * is the formatted body.
   */
  lemma SubjectLine(m: MessageRec)
    requires '\n' !in m.subject
    ensures m.subject != "" ==>
              SplitOn('\n', ExportText(m))[0] == "*" + m.subject + "*"
              && ExportText(m)[|m.subject| + 3..] == FormatMessage(m.body)
    ensures m.subject == "" ==> ExportText(m) == FormatMessage(m.body)
  {
    if m.subject != "" {
      var head := "*" + m.subject + "*";
      var rest := "\n" + FormatMessage(m.body);
      assert ExportText(m) == head + rest;
      assert '\n' !in head;
      SplitPrefix('\n', head, rest);
      assert SplitOn('\n', rest)[0] == [];
      assert head + [] == head;
    }
  }

  /** Every upload row carries the sender and timestamp of a record of the channel, and a file attached to it. */
  lemma {:induction false} UploadsBelongToMessages(ordered: seq<MessageRec>)
    ensures forall u :: u in UploadRows(ordered) ==>
              exists k :: 0 <= k < |ordered| && u.senderId == ordered[k].senderId
                          && u.timestamp == ordered[k].sentAt && u.url in ordered[k].uploads
  {
    if ordered != [] {
      var init := ordered[..|ordered| - 1];
      var last := ordered[|ordered| - 1];
      UploadsBelongToMessages(init);
      forall u | u in UploadRows(ordered)
        ensures exists k :: 0 <= k < |ordered| && u.senderId == ordered[k].senderId
                            && u.timestamp == ordered[k].sentAt && u.url in ordered[k].uploads
      {
        if u in UploadRows(init) {
          var k :| 0 <= k < |init| && u.senderId == init[k].senderId
                   && u.timestamp == init[k].sentAt && u.url in init[k].uploads;
          assert ordered[k] == init[k];
        } else {
          var j :| 0 <= j < |UploadsOf(last)| && UploadsOf(last)[j] == u;
          assert last.uploads[j] == u.url;
          assert ordered[|ordered| - 1] == last;
        }
      }
    }
  }
}
