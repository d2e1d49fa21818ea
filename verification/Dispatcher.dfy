/**
 One update on its way through the dispatcher and the gated send helpers, on
 the shared tables of the running bot. `GatewayProtocol` has the interleavings.
 */
module Dispatcher {
  import opened Prelude
  import opened Gateway

  type Descriptor = int
  type MessageId = int

  /** What the messenger answers to an edit and to a new message. */
  datatype EditAnswer = Edited | NoChange | FallbackRequired | EditFailed
  datatype PostAnswer = Posted(id: MessageId) | PostFailed

  /** A helper call a handler makes for its own chat, with the answers it would get. */
  datatype Call =
    | SendScreen(descriptor: Descriptor, edit: EditAnswer, post: PostAnswer)
    | SendFreshScreen(descriptor: Descriptor, post: PostAnswer)
    | SendError(post: PostAnswer)

  datatype Screen = Screen(message: MessageId, descriptor: Descriptor)

  /** What the user gets to see. */
  datatype Effect = EditedMessage(chat: ChatId, message: MessageId) | NewMessage(chat: ChatId, message: MessageId)

  /** What a call does when the barrier lets it through, given the chat's active screen. */
  function EffectsOf(chat: ChatId, active: Option<Screen>, call: Call): seq<Effect> {
    if call.SendScreen? && active.Some? && !call.edit.FallbackRequired? then
      if call.edit.Edited? then [EditedMessage(chat, active.value.message)] else []
    else if call.post.Posted? then [NewMessage(chat, call.post.id)]
    else []
  }

  function ScreenAfter(active: Option<Screen>, call: Call): Option<Screen> {
    match call
    case SendScreen(descriptor, edit, post) =>
      if active.Some? && (edit.Edited? || edit.NoChange?) then Some(Screen(active.value.message, descriptor))
      else if active.Some? && edit.EditFailed? then active
      else if post.Posted? then Some(Screen(post.id, descriptor))
      else active
    case SendFreshScreen(descriptor, post) => if post.Posted? then Some(Screen(post.id, descriptor)) else active
    case SendError(_) => active
  }

  function Lookup<K, V>(m: map<K, V>, key: K): Option<V> {
    if key in m then Some(m[key]) else None
  }

  function WithScreen(screens: map<ChatId, Screen>, chat: ChatId, screen: Option<Screen>): map<ChatId, Screen> {
    if screen.Some? then screens[chat := screen.value] else screens
  }

  // ---- The story of a bot: what came of every call that was let through ----

  datatype Outcome = NothingShown | EditMade(message: MessageId) | LeftAsIs(message: MessageId) | PostMade(message: MessageId)

  datatype Event = Event(chat: ChatId, call: Call, outcome: Outcome)

  /** A screen call that left a screen behind: by posting a message, by editing one, or by finding nothing to change. */
  predicate Shows(e: Event) {
    !e.call.SendError? && !e.outcome.NothingShown?
  }

  predicate IsLastShow(story: seq<Event>, chat: ChatId, i: int) {
    && 0 <= i < |story| && story[i].chat == chat && Shows(story[i])
    && forall k :: i < k < |story| && story[k].chat == chat ==> !Shows(story[k])
  }

  /** A chat's screen is the one its last such call has left. */
  ghost predicate ScreenTells(story: seq<Event>, chat: ChatId, screen: Option<Screen>) {
    match screen
    case None => forall i :: !IsLastShow(story, chat, i)
    case Some(active) =>
      exists i :: IsLastShow(story, chat, i) && active.message == story[i].outcome.message && active.descriptor == story[i].call.descriptor
  }

  /** What may come of a call, given the chat's screen just before. */
  predicate MayCome(call: Call, active: Option<Screen>, outcome: Outcome) {
    var posted := if call.post.Posted? then PostMade(call.post.id) else NothingShown;
    match call
    case SendError(_) => outcome == posted
    case SendFreshScreen(_, _) => outcome == posted
    case SendScreen(_, edit, _) =>
      if active.None? then outcome == posted
      else
        match edit
        case Edited => outcome == EditMade(active.value.message)
        case NoChange => outcome == LeftAsIs(active.value.message)
        case FallbackRequired => outcome == posted
        case EditFailed => outcome == NothingShown
  }

  /** Each event agrees with the screen that the story before it has left: so every edit is one of the active screen. */
  ghost predicate IsTrue(story: seq<Event>) {
    forall i :: 0 <= i < |story| ==> FitsStory(story, i)
  }

  ghost predicate FitsStory(story: seq<Event>, i: int)
    requires 0 <= i < |story|
  {
    exists active :: ScreenTells(story[..i], story[i].chat, active) && MayCome(story[i].call, active, story[i].outcome)
  }

  /** What the user has got to see of it, in order. */
  function Visible(story: seq<Event>): seq<Effect> {
    if story == [] then []
    else
      var e := story[|story| - 1];
      Visible(story[..|story| - 1]) +
      match e.outcome
      case EditMade(message) => [EditedMessage(e.chat, message)]
      case PostMade(message) => [NewMessage(e.chat, message)]
      case _ => []
  }

  lemma OneMoreEvent(story: seq<Event>, e: Event, active: Option<Screen>)
    requires IsTrue(story) && ScreenTells(story, e.chat, active) && MayCome(e.call, active, e.outcome)
    ensures IsTrue(story + [e])
  {
    var longer := story + [e];
    forall i | 0 <= i < |longer| ensures FitsStory(longer, i) {
      if i < |story| {
        assert FitsStory(story, i);
        var found :| ScreenTells(story[..i], story[i].chat, found) && MayCome(story[i].call, found, story[i].outcome);
        assert longer[..i] == story[..i];
        assert ScreenTells(longer[..i], longer[i].chat, found);
      } else {
        assert longer[..i] == story && longer[i] == e;
        assert ScreenTells(longer[..i], longer[i].chat, active);
      }
    }
  }

  /** How a chat's screen goes on with an event. */
  lemma ScreenAfterEvent(story: seq<Event>, e: Event, chat: ChatId, screen: Option<Screen>)
    requires ScreenTells(story, chat, screen)
    ensures ScreenTells(story + [e], chat,
                        if e.chat == chat && Shows(e) then Some(Screen(e.outcome.message, e.call.descriptor)) else screen)
  {
    var longer := story + [e];
    if e.chat == chat && Shows(e) {
      assert IsLastShow(longer, chat, |story|);
    } else {
      forall i ensures IsLastShow(longer, chat, i) <==> IsLastShow(story, chat, i) {
        if IsLastShow(longer, chat, i) {
          assert forall k :: 0 <= k < |story| ==> longer[k] == story[k];
        }
      }
      if screen.Some? {
        var i :| IsLastShow(story, chat, i) && screen.value.message == story[i].outcome.message
              && screen.value.descriptor == story[i].call.descriptor;
        assert IsLastShow(longer, chat, i);
      }
    }
  }

  class Runtime {
    var currentBarriers: map<ChatId, UxBarrier>
    var activeScreens: map<ChatId, Screen>
    var sent: seq<Effect>
    const dedup: UpdateDedup
    /** Every call that was let through, and what came of it. */
    ghost var story: seq<Event>

    ghost predicate Valid()
      reads this, dedup
    {
      dedup.Valid() && IsTold()
    }

    /** The active screens and the messages are what the story tells, and the story is a true one. */
    ghost predicate IsTold()
      reads this
    {
      && IsTrue(story) && sent == Visible(story)
      && forall chat :: ScreenTells(story, chat, Lookup(activeScreens, chat))
    }

    constructor ()
      ensures Valid() && fresh(dedup) && currentBarriers == map[] && activeScreens == map[] && sent == [] && story == []
    {
      currentBarriers, activeScreens, sent, story := map[], map[], [], [];
      dedup := new UpdateDedup();
    }

    method InstallBarrier(chat: ChatId, barrier: UxBarrier)
      modifies this`currentBarriers
      ensures currentBarriers == old(currentBarriers)[chat := barrier]
    {
      currentBarriers := currentBarriers[chat := barrier];
    }

    method UninstallBarrier(chat: ChatId)
      modifies this`currentBarriers
      ensures currentBarriers == old(currentBarriers) - {chat}
    {
      currentBarriers := currentBarriers - {chat};
    }

    /** Outside an update there is no barrier and the call may render. */
    method TryConsumeUpdateBarrier(chat: ChatId) returns (allowed: bool)
      modifies if chat in currentBarriers then {currentBarriers[chat]} else {}
      ensures chat !in currentBarriers ==> allowed
      ensures chat in currentBarriers ==> currentBarriers[chat].spent && allowed == !old(currentBarriers[chat].spent)
    {
      if chat !in currentBarriers {
        return true;
      }
      allowed := currentBarriers[chat].TryConsume();
    }

    /** The three helpers: nothing behind a spent barrier, the call's own effect otherwise. */
    method Render(chat: ChatId, call: Call)
      requires IsTold() && (chat in currentBarriers ==> currentBarriers[chat] as object != this)
      modifies this`activeScreens, this`sent, this`story, if chat in currentBarriers then {currentBarriers[chat]} else {}
      ensures chat in currentBarriers ==> currentBarriers[chat].spent
      ensures chat in currentBarriers && old(currentBarriers[chat].spent) ==>
                sent == old(sent) && activeScreens == old(activeScreens) && story == old(story)
      ensures IsTold()
      ensures !(chat in currentBarriers && old(currentBarriers[chat].spent)) ==>
                exists outcome :: story == old(story) + [Event(chat, call, outcome)]
      ensures !(chat in currentBarriers && old(currentBarriers[chat].spent)) ==>
                && sent == old(sent) + EffectsOf(chat, Lookup(old(activeScreens), chat), call)
                && activeScreens ==
                   WithScreen(old(activeScreens), chat, ScreenAfter(Lookup(old(activeScreens), chat), call))
    {
      hide ScreenTells, IsTrue, Visible;
      var allowed := TryConsumeUpdateBarrier(chat);
      if !allowed {
        return;
      }
      if call.SendScreen? && chat in activeScreens {
        var active := activeScreens[chat];
        match call.edit {
          case Edited =>
            Tell(Event(chat, call, EditMade(active.message)), activeScreens[chat := Screen(active.message, call.descriptor)]);
            sent := sent + [EditedMessage(chat, active.message)];
            activeScreens := activeScreens[chat := Screen(active.message, call.descriptor)];
            return;
          case NoChange =>
            Tell(Event(chat, call, LeftAsIs(active.message)), activeScreens[chat := Screen(active.message, call.descriptor)]);
            activeScreens := activeScreens[chat := Screen(active.message, call.descriptor)];
            return;
          case FallbackRequired =>
          case EditFailed =>
            Tell(Event(chat, call, NothingShown), activeScreens);
            return;
        }
      }
      Tell(Event(chat, call, if call.post.Posted? then PostMade(call.post.id) else NothingShown),
           if call.post.Posted? && !call.SendError? then activeScreens[chat := Screen(call.post.id, call.descriptor)] else activeScreens);
      if call.post.Posted? {
        sent := sent + [NewMessage(chat, call.post.id)];
        if !call.SendError? {
          activeScreens := activeScreens[chat := Screen(call.post.id, call.descriptor)];
        }
      }
    }

    /** Puts an event into the story, for the tables to follow. */
    ghost method Tell(e: Event, after: map<ChatId, Screen>)
      requires IsTold() && MayCome(e.call, Lookup(activeScreens, e.chat), e.outcome)
      requires after == if Shows(e) then activeScreens[e.chat := Screen(e.outcome.message, e.call.descriptor)] else activeScreens
      modifies this`story
      ensures story == old(story) + [e] && IsTrue(story)
      ensures Visible(story) == sent + match e.outcome
                                       case EditMade(message) => [EditedMessage(e.chat, message)]
                                       case PostMade(message) => [NewMessage(e.chat, message)]
                                       case _ => []
      ensures forall chat :: ScreenTells(story, chat, Lookup(after, chat))
    {
      hide ScreenTells, IsTrue, MayCome;
      OneMoreEvent(story, e, Lookup(activeScreens, e.chat));
      forall chat ensures ScreenTells(story + [e], chat, Lookup(after, chat)) {
        ScreenAfterEvent(story, e, chat, Lookup(activeScreens, chat));
      }
      story := story + [e];
      assert story[..|story| - 1] == old(story);
    }

    /**
     The critical section of an update whose handler makes `calls`: a
     duplicate does nothing; otherwise the first call alone takes effect, the
     chat's barrier is gone afterwards and no other chat is touched.
     */
    method HandleUpdate(chat: ChatId, token: int, calls: seq<Call>)
      requires Valid()
      modifies this, dedup
      ensures Valid()
      ensures var isNew := !IsRecent(old(dedup.accepted), DedupKey(chat, token));
              && dedup.accepted == (if isNew then old(dedup.accepted) + [DedupKey(chat, token)] else old(dedup.accepted))
              && currentBarriers == (if isNew then old(currentBarriers) - {chat} else old(currentBarriers))
              && sent == (if isNew && calls != []
                          then old(sent) + EffectsOf(chat, Lookup(old(activeScreens), chat), calls[0]) else old(sent))
              && activeScreens ==
                 (if isNew && calls != []
                  then WithScreen(old(activeScreens), chat, ScreenAfter(Lookup(old(activeScreens), chat), calls[0]))
                  else old(activeScreens))
      ensures |sent| <= |old(sent)| + 1
      ensures if IsRecent(old(dedup.accepted), DedupKey(chat, token)) || calls == [] then story == old(story)
              else exists outcome :: story == old(story) + [Event(chat, calls[0], outcome)]
    {
      hide ScreenTells, IsTrue, Visible, ScreenAfter, IsRecent;
      var isNew := dedup.Observe(DedupKey(chat, token));
      if !isNew {
        return;
      }
      var barrier := new UxBarrier();
      InstallBarrier(chat, barrier);
      ghost var installed, accepted := currentBarriers, dedup.accepted;
      for i := 0 to |calls|
        invariant Valid() && dedup.accepted == accepted
        invariant currentBarriers == installed && barrier.spent == (i > 0)
        invariant i == 0 ==> sent == old(sent) && activeScreens == old(activeScreens) && story == old(story)
        invariant i > 0 ==> exists outcome :: story == old(story) + [Event(chat, calls[0], outcome)]
        invariant i > 0 ==>
                    && sent == old(sent) + EffectsOf(chat, Lookup(old(activeScreens), chat), calls[0])
                    && activeScreens ==
                       WithScreen(old(activeScreens), chat, ScreenAfter(Lookup(old(activeScreens), chat), calls[0]))
      {
        Render(chat, calls[i]);
      }
      UninstallBarrier(chat);
    }
  }
}
