/** handle_dms: each unread direct message is routed to invite acceptance,
    to removal handling, or ignored, and the subreddit table changes
    accordingly. */
module Inbox {
  import opened Urls
  import opened Records
  import opened Communities

  /** A direct message: body, subject and the subreddit it concerns, if any. */
  datatype Message = Message(body: string, subject: string, subreddit: Option<string>)

  /** Where handle_dms sends a message. */
  datatype Route = AcceptInvite | ModRemoval | Ignore

  const GREETING: string := "gadzooks!"
  const BOLD_GREETING: string := "**gadzooks!"
  const INVITE_SUBJECT: string := "invitation to moderate"
  const REMOVAL_PHRASE: string := "You have been removed as a moderator from "

  /** The invite test: the body starts with either greeting, or the subject
      mentions an invitation to moderate. */
  predicate IsInvite(msg: Message)
  {
    StartsWith(msg.body, BOLD_GREETING) || StartsWith(msg.body, GREETING) ||
    Contains(msg.subject, INVITE_SUBJECT)
  }

  /** The removal test: the removal phrase in the body and a subreddit. */
  predicate IsRemoval(msg: Message)
  {
    Contains(msg.body, REMOVAL_PHRASE) && msg.subreddit.Some?
  }

  /** The routing of one message; the invite test is tried first. */
  function RouteOf(msg: Message): (r: Route)
    ensures r == AcceptInvite <==> IsInvite(msg)
    ensures r == ModRemoval <==> !IsInvite(msg) && IsRemoval(msg)
    ensures r == ModRemoval ==> msg.subreddit.Some?
  {
    if IsInvite(msg) then AcceptInvite
    else if IsRemoval(msg) then ModRemoval
    else Ignore
  }

  /** Routing by occurrence: the invitation phrase anywhere in the subject
      makes an invite, whatever the body says; the removal phrase anywhere
      in the body, with a subreddit and no invite marker, makes a removal;
      without a subreddit a message is never a removal. */
  lemma RoutingByOccurrence(msg: Message)
    ensures (exists i: nat :: OccursAt(msg.subject, INVITE_SUBJECT, i)) ==> RouteOf(msg) == AcceptInvite
    ensures (!IsInvite(msg) && msg.subreddit.Some? &&
             exists i: nat :: OccursAt(msg.body, REMOVAL_PHRASE, i)) ==> RouteOf(msg) == ModRemoval
    ensures msg.subreddit.None? ==> RouteOf(msg) != ModRemoval
  {
    ContainsIffOccurs(msg.subject, INVITE_SUBJECT);
    ContainsIffOccurs(msg.body, REMOVAL_PHRASE);
  }

  /** The outcome of handling messages: the new table, or a crash. An
      invite-routed message without a subreddit makes accept_invite raise,
      and nothing catches it. */
  datatype DmOutcome = Continue(table: seq<SubData>) | Crash

  /** An invite-routed message that names no subreddit. */
  predicate IsSubredditlessInvite(msg: Message)
  {
    IsInvite(msg) && msg.subreddit.None?
  }

  /** The effect of one message on the subreddit table: it crashes exactly
      on an invite without a subreddit; an invite leaves its subreddit
      tracked, a removal leaves it untracked, and no other subreddit joins
      or leaves. */
  function ApplyDm(t: seq<SubData>, msg: Message): (r: DmOutcome)
    ensures r.Crash? <==> IsSubredditlessInvite(msg)
    ensures r.Continue? && IsInvite(msg) ==> msg.subreddit.value in Names(r.table)
    ensures r.Continue? && RouteOf(msg) == ModRemoval ==> msg.subreddit.value !in Names(r.table)
    ensures r.Continue? ==> forall n :: Some(n) != msg.subreddit ==> (n in Names(r.table) <==> n in Names(t))
  {
    match RouteOf(msg)
    case AcceptInvite =>
      if msg.subreddit.None? then Crash else Continue(InsertIfAbsent(t, msg.subreddit.value))
    case ModRemoval => Continue(DeleteNamed(t, msg.subreddit.value))
    case Ignore => Continue(t)
  }

  /** Some message is an invite without a subreddit. */
  predicate HasSubredditlessInvite(msgs: seq<Message>)
  {
    exists i :: 0 <= i < |msgs| && IsSubredditlessInvite(msgs[i])
  }

  /** A list of messages has a subreddit-less invite exactly when its first
      message is one or the rest has one. */
  lemma HasSubredditlessInviteCons(msgs: seq<Message>)
    requires msgs != []
    ensures HasSubredditlessInvite(msgs) <==>
      IsSubredditlessInvite(msgs[0]) || HasSubredditlessInvite(msgs[1..])
  {
    if HasSubredditlessInvite(msgs) && !IsSubredditlessInvite(msgs[0]) {
      var i :| 0 <= i < |msgs| && IsSubredditlessInvite(msgs[i]);
      assert msgs[1..][i - 1] == msgs[i];
    }
  }

  /** The messages handled in order: the final table, and whether a message
      crashed the bot (the table is then as it was before that message).
      The bot crashes exactly when some message is an invite without a
      subreddit, and an empty inbox changes nothing. */
  function ApplyDms(t: seq<SubData>, msgs: seq<Message>): (r: (seq<SubData>, bool))
    ensures r.1 <==> HasSubredditlessInvite(msgs)
    ensures msgs == [] ==> r.0 == t
    decreases |msgs|
  {
    if msgs == [] then (t, false)
    else
      HasSubredditlessInviteCons(msgs);
      match ApplyDm(t, msgs[0])
      case Crash => (t, true)
      case Continue(t') => ApplyDms(t', msgs[1..])
  }

  /** Handling messages keeps subreddit names unique. */
  lemma {:induction false} ApplyDmsUnique(t: seq<SubData>, msgs: seq<Message>)
    requires UniqueNames(t)
    ensures UniqueNames(ApplyDms(t, msgs).0)
    decreases |msgs|
  {
    if msgs != [] {
      var msg := msgs[0];
      match ApplyDm(t, msg)
      case Crash =>
      case Continue(t') =>
        if RouteOf(msg) == AcceptInvite {
          InsertIfAbsentMap(t, msg.subreddit.value);
        } else if RouteOf(msg) == ModRemoval {
          DeleteNamedUnique(t, msg.subreddit.value);
        }
        ApplyDmsUnique(t', msgs[1..]);
    }
  }

  /** Whether some message would remove the named subreddit. */
  predicate RemovesName(msgs: seq<Message>, name: string)
  {
    exists i :: 0 <= i < |msgs| && RouteOf(msgs[i]) == ModRemoval && msgs[i].subreddit == Some(name)
  }

  /** A tracked subreddit that no message removes stays tracked with the same
      indexed flag: re-accepting an invite for it changes nothing. */
  lemma {:induction false} UnremovedKeepsFlag(t: seq<SubData>, msgs: seq<Message>, name: string)
    requires name in AsMap(t) && !RemovesName(msgs, name)
    ensures name in AsMap(ApplyDms(t, msgs).0)
    ensures AsMap(ApplyDms(t, msgs).0)[name] == AsMap(t)[name]
    decreases |msgs|
  {
    if msgs != [] {
      var msg := msgs[0];
      match ApplyDm(t, msg)
      case Crash =>
      case Continue(t') =>
        if RouteOf(msg) == AcceptInvite {
          InsertIfAbsentMap(t, msg.subreddit.value);
        } else if RouteOf(msg) == ModRemoval {
          DeleteNamedMap(t, msg.subreddit.value);
          assert msg.subreddit != Some(name);
        }
        assert AsMap(t')[name] == AsMap(t)[name];
        forall i | 0 <= i < |msgs[1..]|
          ensures !(RouteOf(msgs[1..][i]) == ModRemoval && msgs[1..][i].subreddit == Some(name))
        {
          assert msgs[1..][i] == msgs[i + 1];
        }
        UnremovedKeepsFlag(t', msgs[1..], name);
    }
  }
}
