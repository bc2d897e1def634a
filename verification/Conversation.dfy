/** The per-user dialogue of `handle_message`: a session per user, one
    transition per trimmed inbound text, and the hand-off of the collected
    entries to the renderer when the user answers "no more". Replies are
    abstract tags; delivering them is the messaging platform's business. */
module Conversation {
  import opened Wrappers
  import opened Text
  import opened Itinerary
  import opened Layout

  /** "Create itinerary": restarts the flow from any step. */
  const StartKeyword: string := "しおり作成"
  /** "Yes" and "No" at the continue question, matched as prefixes. */
  const Yes: string := "はい"
  const No: string := "いいえ"

  /** The source's integer step 0..4: idle, then awaiting date, place, memo,
      and the continue/stop answer. */
  datatype Phase = Idle | AwaitDate | AwaitPlace | AwaitMemo | AwaitContinue

  /** A user's session. The scratch fields are absent until first written: the
      session the source creates holds only the step and the item list. */
  datatype Session = Session(
    step: Phase,
    items: seq<Entry>,
    date: Option<string>,
    place: Option<string>,
    memo: Option<string>)

  /** What the source creates for an unseen user, and what it resets to after rendering. */
  const Fresh: Session := Session(Idle, [], None, None, None)

  datatype Reply =
    | AskDate        // the date prompt after the start keyword
    | AskPlace
    | AskMemo
    | AskContinue    // "add another entry? (yes / no)"
    | AskNextDate
    | PdfReady       // the download link to the rendered document
    | AskYesNo       // the re-prompt when the answer is neither yes nor no
    | NoReply        // nothing is sent

  type UserId = string

  /** The result of one inbound message. `rendered` carries the items handed to
      the renderer when rendering was invoked. `Failed` is the source's
      unhandled KeyError when a memo arrives with no stored date or place; the
      sessions are as the source leaves them at the point of the fault. */
  datatype Outcome =
    | Done(sessions: map<UserId, Session>, reply: Reply, rendered: Option<seq<Entry>>)
    | Failed(sessions: map<UserId, Session>)

  /** The session a message from `user` is handled against. */
  function Current(sessions: map<UserId, Session>, user: UserId): Session
  {
    if user in sessions then sessions[user] else Fresh
  }

  /** What holds of every session the dialogue can reach: an idle session is
      a fresh one, each later step has the scratch fields it will read, and
      while waiting for the continue answer the last item is the scratch entry. */
  predicate WellFormed(s: Session)
  {
    match s.step
    case Idle => s == Fresh
    case AwaitDate => true
    case AwaitPlace => s.date.Some?
    case AwaitMemo => s.date.Some? && s.place.Some?
    case AwaitContinue =>
      && s.date.Some? && s.place.Some? && s.memo.Some?
      && |s.items| > 0
      && s.items[|s.items| - 1] == Entry(s.date.value, s.place.value, s.memo.value)
  }

  predicate AllWellFormed(sessions: map<UserId, Session>)
  {
    forall u :: u in sessions ==> WellFormed(sessions[u])
  }

  /** One session's move on an already-trimmed text. `Fault` is the KeyError. */
  datatype Transition =
    | Moved(next: Session, reply: Reply, rendered: Option<seq<Entry>>)
    | Fault(next: Session)

  /** The body of `handle_message` after the session lookup: the start keyword
      first, then dispatch on the step. */
  function Advance(s: Session, text: string): (t: Transition)
    ensures WellFormed(s) ==> t.Moved? && WellFormed(t.next)
    ensures t.Moved? && t.rendered.Some? ==>
      && t.reply == PdfReady && t.rendered.value == s.items && t.next == Fresh
      && (WellFormed(s) ==> |s.items| > 0)
    ensures t.Moved? && t.reply == NoReply ==> t.next == s && t.rendered.None?
  {
    if text == StartKeyword then Moved(s.(step := AwaitDate, items := []), AskDate, None)
    else
      match s.step
      case Idle => Moved(s, NoReply, None)
      case AwaitDate => Moved(s.(date := Some(text), step := AwaitPlace), AskPlace, None)
      case AwaitPlace => Moved(s.(place := Some(text), step := AwaitMemo), AskMemo, None)
      case AwaitMemo =>
        var noted := s.(memo := Some(text));
        if s.date.None? || s.place.None? then Fault(noted)
        else
          var entry := Entry(s.date.value, s.place.value, text);
          Moved(noted.(items := s.items + [entry], step := AwaitContinue), AskContinue, None)
      case AwaitContinue =>
        if StartsWith(text, Yes) then Moved(s.(step := AwaitDate), AskNextDate, None)
        else if StartsWith(text, No) then Moved(Fresh, PdfReady, Some(s.items))
        else Moved(s, AskYesNo, None)
  }

  /** Records a session's move in the session map. */
  function Commit(sessions: map<UserId, Session>, user: UserId, t: Transition): Outcome
  {
    match t
    case Moved(next, reply, rendered) => Done(sessions[user := next], reply, rendered)
    case Fault(next) => Failed(sessions[user := next])
  }

  /** `handle_message` for one text from `user`: trim it, create the session
      if the user is unseen, and apply the session's move. */
  function Handle(sessions: map<UserId, Session>, user: UserId, raw: string): (o: Outcome)
    ensures user in o.sessions
    ensures o.Done? && o.rendered.Some? ==>
      && o.reply == PdfReady
      && o.rendered.value == Current(sessions, user).items
      && o.sessions[user] == Fresh
  {
    Commit(sessions, user, Advance(Current(sessions, user), Strip(raw)))
  }

  /** A message from one user creates that user's session if needed and
      changes no other user's session. */
  lemma HandleTouchesOnlySender(sessions: map<UserId, Session>, user: UserId, raw: string)
    ensures var o := Handle(sessions, user, raw);
      && o.sessions.Keys == sessions.Keys + {user}
      && forall v :: v in sessions && v != user ==> o.sessions[v] == sessions[v]
  {
  }

  /** Every message keeps all sessions well formed, so from sessions the
      dialogue can reach the KeyError never happens, and the renderer is never
      handed an empty item list. */
  lemma HandleKeepsWellFormed(sessions: map<UserId, Session>, user: UserId, raw: string)
    requires AllWellFormed(sessions)
    ensures var o := Handle(sessions, user, raw);
      && o.Done? && AllWellFormed(o.sessions)
      && (o.rendered.Some? ==> |o.rendered.value| > 0)
  {
    assert WellFormed(Current(sessions, user));
  }

  /** A first message from an unseen user creates a fresh idle session; an idle
      session ignores every text but the start keyword, with no reply. */
  lemma IdleIgnoresOtherText(sessions: map<UserId, Session>, user: UserId, raw: string)
    requires Current(sessions, user).step == Idle && Strip(raw) != StartKeyword
    ensures Handle(sessions, user, raw) == Done(sessions[user := Current(sessions, user)], NoReply, None)
    ensures user !in sessions ==> Handle(sessions, user, raw).sessions[user] == Fresh
  {
  }

  /** The exact start keyword, once trimmed, restarts the flow from any step:
      step 1, no items, scratch fields untouched. */
  lemma StartKeywordRestarts(s: Session, text: string)
    requires text == StartKeyword
    ensures Advance(s, text) == Moved(s.(step := AwaitDate, items := []), AskDate, None)
  {
  }

  /** At steps 1 and 2 the text is stored as the date, then the place, and the
      step advances by one; the items stay as they were. */
  lemma DateAndPlaceAdvance(s: Session, text: string)
    requires text != StartKeyword
    requires s.step == AwaitDate || s.step == AwaitPlace
    ensures var t := Advance(s, text);
      && t.Moved? && t.rendered.None? && t.next.items == s.items
      && (s.step == AwaitDate ==>
            t.reply == AskPlace && t.next == s.(date := Some(text), step := AwaitPlace))
      && (s.step == AwaitPlace ==>
            t.reply == AskMemo && t.next == s.(place := Some(text), step := AwaitMemo))
  {
  }

  /** At step 3 the text is stored as the memo and exactly one entry, built from
      the stored date and place and this memo, is appended after the earlier items. */
  lemma MemoCommitsEntry(s: Session, text: string)
    requires text != StartKeyword
    requires s.step == AwaitMemo && s.date.Some? && s.place.Some?
    ensures var t := Advance(s, text);
      && t.Moved? && t.reply == AskContinue && t.rendered.None?
      && t.next.step == AwaitContinue
      && t.next.memo == Some(text)
      && t.next.items == s.items + [Entry(s.date.value, s.place.value, text)]
      && t.next.date == s.date && t.next.place == s.place
  {
  }

  /** The KeyError path: a memo with no stored date or place stores the memo
      and then faults, leaving step and items as they were. Unreachable from
      well-formed sessions (see `Advance`). */
  lemma MemoWithoutScratchFaults(s: Session, text: string)
    requires text != StartKeyword
    requires s.step == AwaitMemo && (s.date.None? || s.place.None?)
    ensures Advance(s, text) == Fault(s.(memo := Some(text)))
  {
  }

  /** At step 4: a "yes" prefix goes back to step 1 keeping the items; a text
      with neither prefix changes nothing and asks again. */
  lemma ContinueYesOrNeither(s: Session, text: string)
    requires text != StartKeyword
    requires s.step == AwaitContinue
    requires !StartsWith(text, No) || StartsWith(text, Yes)
    ensures var t := Advance(s, text);
      && t.Moved? && t.rendered.None?
      && (StartsWith(text, Yes) ==> t.reply == AskNextDate && t.next == s.(step := AwaitDate))
      && (!StartsWith(text, Yes) ==> t.reply == AskYesNo && t.next == s)
  {
  }

  /** At step 4 a "no" prefix hands the current items to the renderer, and only
      then replaces the session with a fresh one, scratch fields and all. */
  lemma ContinueNoRenders(s: Session, text: string)
    requires text != StartKeyword
    requires s.step == AwaitContinue
    requires StartsWith(text, No)
    ensures Advance(s, text) == Moved(Fresh, PdfReady, Some(s.items))
  {
    assert !StartsWith(text, Yes) by {
      assert text[0] == No[0] != Yes[0];
    }
  }

  /** What a run of messages from one user leaves behind: the final sessions,
      one reply per message in order (`NoReply` for a message that faulted),
      every item list handed to the renderer, and whether any message faulted. */
  datatype Trace = Trace(
    sessions: map<UserId, Session>,
    replies: seq<Reply>,
    renders: seq<seq<Entry>>,
    failed: bool)

  /** `handle_message` applied to each text in turn, one webhook delivery per
      text. A fault aborts only its own delivery: nothing is sent for it, the
      sessions stay as the fault left them, and the next text is handled as usual. */
  function Run(sessions: map<UserId, Session>, user: UserId, texts: seq<string>): Trace
    decreases |texts|
  {
    if texts == [] then Trace(sessions, [], [], false)
    else
      match Handle(sessions, user, texts[0])
      case Failed(next) =>
        var rest := Run(next, user, texts[1..]);
        Trace(rest.sessions, [NoReply] + rest.replies, rest.renders, true)
      case Done(next, reply, rendered) =>
        var rest := Run(next, user, texts[1..]);
        Trace(rest.sessions, [reply] + rest.replies,
              (if rendered.Some? then [rendered.value] else []) + rest.renders, rest.failed)
  }

  /** The same run seen from the one session it concerns. */
  datatype Exchange = Exchange(
    last: Session,
    replies: seq<Reply>,
    renders: seq<seq<Entry>>,
    failed: bool)

  function Converse(s: Session, texts: seq<string>): Exchange
    decreases |texts|
  {
    if texts == [] then Exchange(s, [], [], false)
    else
      match Advance(s, Strip(texts[0]))
      case Fault(next) =>
        var rest := Converse(next, texts[1..]);
        Exchange(rest.last, [NoReply] + rest.replies, rest.renders, true)
      case Moved(next, reply, rendered) =>
        var rest := Converse(next, texts[1..]);
        Exchange(rest.last, [reply] + rest.replies,
                 (if rendered.Some? then [rendered.value] else []) + rest.renders, rest.failed)
  }

  /** A run of messages from one user is that user's conversation: the other
      users' sessions are left exactly as they were. */
  lemma {:induction false} RunIsConverse(sessions: map<UserId, Session>, user: UserId, texts: seq<string>)
    requires texts != []
    ensures var c := Converse(Current(sessions, user), texts);
      Run(sessions, user, texts) == Trace(sessions[user := c.last], c.replies, c.renders, c.failed)
    decreases |texts|
  {
    var next := Advance(Current(sessions, user), Strip(texts[0])).next;
    if |texts| > 1 {
      RunIsConverse(sessions[user := next], user, texts[1..]);
      assert sessions[user := next][user := Converse(next, texts[1..]).last]
          == sessions[user := Converse(next, texts[1..]).last];
    }
  }

  /** Every message gets exactly one reply slot, so replies line up with texts. */
  lemma {:induction false} RunRepliesPerText(sessions: map<UserId, Session>, user: UserId, texts: seq<string>)
    ensures |Run(sessions, user, texts).replies| == |texts|
    decreases |texts|
  {
    if texts != [] {
      RunRepliesPerText(Handle(sessions, user, texts[0]).sessions, user, texts[1..]);
    }
  }

  /** A fault does not end the dialogue: a memo that faults for want of a
      stored date or place gets no reply, and the start keyword sent next
      restarts the flow as it would from any step. */
  lemma FaultThenRestart(sessions: map<UserId, Session>, user: UserId, memo: string)
    requires Current(sessions, user).step == AwaitMemo
    requires Current(sessions, user).date.None? || Current(sessions, user).place.None?
    requires Strip(memo) != StartKeyword
    ensures var r := Run(sessions, user, [memo, StartKeyword]);
      && r.failed && r.replies == [NoReply, AskDate] && r.renders == []
      && user in r.sessions && r.sessions[user].step == AwaitDate && r.sessions[user].items == []
  {
    var s := Current(sessions, user);
    var noted := s.(memo := Some(Strip(memo)));
    MemoWithoutScratchFaults(s, Strip(memo));
    assert Handle(sessions, user, memo) == Failed(sessions[user := noted]);
    var faulted := sessions[user := noted];
    var restarted := noted.(step := AwaitDate, items := []);
    KeywordTrimmed();
    StrippedKept(StartKeyword);
    StartKeywordRestarts(noted, StartKeyword);
    assert Handle(faulted, user, StartKeyword) == Done(faulted[user := restarted], AskDate, None);
    assert [StartKeyword][1..] == [];
    assert Run(faulted, user, [StartKeyword])
        == Trace(faulted[user := restarted], [AskDate], [], false);
    assert [memo, StartKeyword][0] == memo && [memo, StartKeyword][1..] == [StartKeyword];
  }

  /** The session `handle_message` leaves when a call out of it raises once
      the move is decided: the renderer or the reply on "no", or the reply on
      any other move. Every other branch writes the session before replying,
      so the new session stays; the "no" branch renders and replies before the
      reset, so the session is left as it was. A fault raises before any call. */
  function Interrupted(s: Session, text: string): (r: Session)
    ensures WellFormed(s) ==> WellFormed(r)
  {
    match Advance(s, text)
    case Fault(next) => next
    case Moved(next, _, rendered) => if rendered.Some? then s else next
  }

  /** When rendering on "no" fails, or the reply after it does, the session is
      still waiting for the continue answer with every item, so answering "no"
      again hands the renderer the same items. */
  lemma RenderFailureRetries(s: Session, text: string)
    requires text != StartKeyword && s.step == AwaitContinue && StartsWith(text, No)
    ensures Interrupted(s, text) == s
    ensures Advance(Interrupted(s, text), text) == Moved(Fresh, PdfReady, Some(s.items))
  {
    ContinueNoRenders(s, text);
  }

  /** A field value the dialogue stores unchanged: already trimmed and not the start keyword. */
  predicate Typed(f: string)
  {
    IsStripped(f) && f != StartKeyword
  }

  predicate TypedEntry(e: Entry)
  {
    Typed(e.date) && Typed(e.place) && Typed(e.memo)
  }

  /** The three texts that make up one entry, followed by `tail`. */
  function EntryTexts(e: Entry, tail: seq<string>): seq<string>
  {
    [e.date] + ([e.place] + ([e.memo] + tail))
  }

  /** The replies to those three texts. */
  const EntryReplies: seq<Reply> := [AskPlace, AskMemo, AskContinue]

  /** The texts of a complete entry round for each entry: date, place, memo,
      then "yes" to continue, or "no" after the last one. */
  function Rounds(es: seq<Entry>): seq<string>
    requires |es| > 0
  {
    EntryTexts(es[0], if |es| == 1 then [No] else [Yes] + Rounds(es[1..]))
  }

  /** The replies those rounds draw. */
  function RoundReplies(n: nat): seq<Reply>
    requires n > 0
  {
    EntryReplies + (if n == 1 then [PdfReady] else [AskNextDate] + RoundReplies(n - 1))
  }

  /** A text that neither starts nor ends with whitespace is kept as it is. */
  lemma StrippedKept(t: string)
    requires IsStripped(t)
    ensures Strip(t) == t
  {
    StripOfPadded([], t, []);
    assert [] + t + [] == t;
  }

  lemma YesTrimmed()
    ensures IsStripped(Yes) && StartsWith(Yes, Yes) && Yes != StartKeyword
  {
    assert Yes == ['は', 'い'];
  }

  lemma NoTrimmed()
    ensures IsStripped(No) && StartsWith(No, No) && !StartsWith(No, Yes) && No != StartKeyword
  {
    assert No == ['い', 'い', 'え'];
  }

  lemma KeywordTrimmed()
    ensures IsStripped(StartKeyword)
  {
    assert StartKeyword == ['し', 'お', 'り', '作', '成'];
  }

  lemma EntryRepliesShape()
    ensures [AskPlace] + ([AskMemo] + [AskContinue]) == EntryReplies
  {
  }

  /** `c` preceded by messages that drew `rs` and rendered nothing. */
  function Prepend(rs: seq<Reply>, c: Exchange): Exchange
  {
    c.(replies := rs + c.replies)
  }

  /** One trimmed message that moves the session without rendering. */
  lemma Feed(s: Session, text: string, later: seq<string>, next: Session, reply: Reply)
    requires IsStripped(text) && Advance(s, text) == Moved(next, reply, None)
    ensures Converse(s, [text] + later) == Prepend([reply], Converse(next, later))
  {
    StrippedKept(text);
    assert ([text] + later)[0] == text && ([text] + later)[1..] == later;
    assert [] + Converse(next, later).renders == Converse(next, later).renders;
  }

  /** A quiet message in front of a known continuation. */
  lemma Chain(s: Session, text: string, later: seq<string>, next: Session, reply: Reply,
              rs: seq<Reply>, c: Exchange)
    requires IsStripped(text) && Advance(s, text) == Moved(next, reply, None)
    requires Converse(next, later) == Prepend(rs, c)
    ensures Converse(s, [text] + later) == Prepend([reply] + rs, c)
  {
    Feed(s, text, later, next, reply);
    assert [reply] + (rs + c.replies) == ([reply] + rs) + c.replies;
  }

  /** The session after an entry's memo: its fields stored, the entry
      appended, waiting for the continue answer. */
  function Noted(s: Session, e: Entry): Session
  {
    s.(date := Some(e.date), place := Some(e.place), memo := Some(e.memo),
       items := s.items + [e], step := AwaitContinue)
  }

  /** The session after "yes": the entry kept, back at step 1. */
  function Resumed(s: Session, e: Entry): Session
  {
    Noted(s, e).(step := AwaitDate)
  }

  /** The memo of an entry, at step 3: the entry is appended and step 4 follows. */
  lemma MemoRound(s: Session, e: Entry, tail: seq<string>)
    requires Typed(e.memo) && s.step == AwaitMemo && s.date == Some(e.date) && s.place == Some(e.place)
    ensures Converse(s, [e.memo] + tail) == Prepend([AskContinue], Converse(Noted(s, e), tail))
  {
    MemoCommitsEntry(s, e.memo);
    Feed(s, e.memo, tail, Noted(s, e), AskContinue);
  }

  /** The place and memo of an entry, from step 2. */
  lemma PlaceRound(s: Session, e: Entry, tail: seq<string>)
    requires Typed(e.place) && Typed(e.memo) && s.step == AwaitPlace && s.date == Some(e.date)
    ensures Converse(s, [e.place] + ([e.memo] + tail))
         == Prepend([AskMemo] + [AskContinue], Converse(Noted(s, e), tail))
  {
    var s2 := s.(place := Some(e.place), step := AwaitMemo);
    assert Noted(s2, e) == Noted(s, e);
    MemoRound(s2, e, tail);
    DateAndPlaceAdvance(s, e.place);
    Chain(s, e.place, [e.memo] + tail, s2, AskMemo, [AskContinue], Converse(Noted(s, e), tail));
  }

  /** Date, place and memo of one entry, from step 1: the entry is appended and
      the dialogue waits at step 4. */
  lemma EntryRound(s: Session, e: Entry, tail: seq<string>)
    requires TypedEntry(e) && s.step == AwaitDate
    ensures Converse(s, EntryTexts(e, tail)) == Prepend(EntryReplies, Converse(Noted(s, e), tail))
  {
    var s1 := s.(date := Some(e.date), step := AwaitPlace);
    assert Noted(s1, e) == Noted(s, e);
    PlaceRound(s1, e, tail);
    DateAndPlaceAdvance(s, e.date);
    Chain(s, e.date, [e.place] + ([e.memo] + tail), s1, AskPlace, [AskMemo] + [AskContinue],
          Converse(Noted(s, e), tail));
    EntryRepliesShape();
  }

  /** The final "no": the items go to the renderer and the session is reset. */
  lemma StopStep(s: Session)
    requires s.step == AwaitContinue
    ensures Converse(s, [No]) == Exchange(Fresh, [PdfReady], [s.items], false)
  {
    NoTrimmed();
    StrippedKept(No);
    ContinueNoRenders(s, No);
    assert [No][1..] == [];
  }

  /** "Yes" at step 4. */
  lemma YesStep(s: Session, later: seq<string>)
    requires s.step == AwaitContinue
    ensures Converse(s, [Yes] + later) == Prepend([AskNextDate], Converse(s.(step := AwaitDate), later))
  {
    YesTrimmed();
    ContinueYesOrNeither(s, Yes);
    Feed(s, Yes, later, s.(step := AwaitDate), AskNextDate);
  }

  /** The round of a single entry, ended by "no". */
  lemma LastRound(s: Session, es: seq<Entry>)
    requires |es| == 1 && TypedEntry(es[0]) && s.step == AwaitDate
    ensures Converse(s, Rounds(es)) == Exchange(Fresh, RoundReplies(1), [s.items + es], false)
  {
    StopStep(Noted(s, es[0]));
    EntryRound(s, es[0], [No]);
    SingleShape(es);
  }

  /** A round ended by "yes", in front of the rounds that follow it. */
  lemma NextRound(s: Session, es: seq<Entry>)
    requires |es| > 1 && TypedEntry(es[0]) && s.step == AwaitDate
    requires Converse(Resumed(s, es[0]), Rounds(es[1..]))
          == Exchange(Fresh, RoundReplies(|es| - 1), [Resumed(s, es[0]).items + es[1..]], false)
    ensures Converse(s, Rounds(es)) == Exchange(Fresh, RoundReplies(|es|), [s.items + es], false)
  {
    YesStep(Noted(s, es[0]), Rounds(es[1..]));
    EntryRound(s, es[0], [Yes] + Rounds(es[1..]));
    JoinShape(s.items, es);
  }

  /** Rounds for one entry or more, from step 1: the renderer is handed the
      earlier items followed by exactly these entries, and the session ends fresh. */
  lemma {:induction false} RoundsFrom(s: Session, es: seq<Entry>)
    requires |es| > 0 && forall i :: 0 <= i < |es| ==> TypedEntry(es[i])
    requires s.step == AwaitDate
    ensures Converse(s, Rounds(es)) == Exchange(Fresh, RoundReplies(|es|), [s.items + es], false)
    decreases |es|
  {
    assert TypedEntry(es[0]);
    if |es| == 1 {
      LastRound(s, es);
    } else {
      RoundsFrom(Resumed(s, es[0]), es[1..]);
      NextRound(s, es);
    }
  }

  /** A whole dialogue: the start keyword, then for each entry its date, place
      and memo followed by "yes", except "no" after the last. The renderer is
      invoked once, with exactly the typed entries in the order typed; the
      user's session ends fresh and every other user's is untouched. */
  lemma Dialogue(sessions: map<UserId, Session>, user: UserId, es: seq<Entry>)
    requires |es| > 0 && forall i :: 0 <= i < |es| ==> TypedEntry(es[i])
    ensures Run(sessions, user, [StartKeyword] + Rounds(es))
         == Trace(sessions[user := Fresh], [AskDate] + RoundReplies(|es|), [es], false)
  {
    var s := Current(sessions, user);
    var started := s.(step := AwaitDate, items := []);
    KeywordTrimmed();
    StartKeywordRestarts(s, StartKeyword);
    Feed(s, StartKeyword, Rounds(es), started, AskDate);
    RoundsFrom(started, es);
    JoinShape([], es);
    RunIsConverse(sessions, user, [StartKeyword] + Rounds(es));
  }
}
