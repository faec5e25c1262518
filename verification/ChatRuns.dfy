/** What holds over every run of the chat bus. */
module ChatRuns {
  import opened CStrings
  import opened Sequences
  import opened ChatModel

  // ----- the client list

  // What the bus shows of a client.
  datatype Card = Card(id: int, nick: string, status: Status, text: string)

  function CardOf(c: Client): Card { Card(c.id, c.nick, c.status, c.statusText) }

  function Cards(cs: seq<Client>): (r: seq<Card>)
    ensures |r| == |cs|
    ensures forall i :: 0 <= i < |cs| ==> r[i] == CardOf(cs[i])
  {
    seq(|cs|, i requires 0 <= i < |cs| => CardOf(cs[i]))
  }

  // Ids fall strictly along the list, and nicks fit their buffer.
  ghost predicate Ordered(b: Bus)
  {
    && (forall i, j :: 0 <= i < j < |b.clients| ==> b.clients[i].id > b.clients[j].id)
    && (forall i :: 0 <= i < |b.clients| ==> b.clients[i].id < b.nextId && |b.clients[i].nick| <= 31)
  }

  function CardsAfter(b: Bus, op: Op): seq<Card>
  {
    var cards := Cards(b.clients);
    if op.Join? then [CardOf(NewClient(b.nextId, op.nick))] + cards
    else if op.Leave? && Present(b.clients, op.id) then
      var k := Place(b.clients, op.id);
      cards[..k] + cards[k + 1..]
    else if op.SetStatus? && Present(b.clients, op.id) then
      var k := Place(b.clients, op.id);
      cards[k := cards[k].(status := op.status)]
    else cards
  }

  lemma SameCards(cs: seq<Client>, r: seq<Client>)
    requires |r| == |cs| && forall i :: 0 <= i < |cs| ==> CardOf(r[i]) == CardOf(cs[i])
    ensures Cards(r) == Cards(cs)
    ensures forall n :: Ordered(Bus(cs, n)) ==> Ordered(Bus(r, n))
  {
    forall n | Ordered(Bus(cs, n))
      ensures Ordered(Bus(r, n))
    {
      assert forall i :: 0 <= i < |cs| ==> CardOf(r[i]).id == cs[i].id && CardOf(r[i]).nick == cs[i].nick;
    }
  }

  lemma OrderedWithout(cs: seq<Client>, n: int, k: nat)
    requires k < |cs| && Ordered(Bus(cs, n))
    ensures Ordered(Bus(cs[..k] + cs[k + 1..], n))
    ensures Cards(cs[..k] + cs[k + 1..]) == Cards(cs)[..k] + Cards(cs)[k + 1..]
  {
    var r := cs[..k] + cs[k + 1..];
    assert forall i :: 0 <= i < |r| ==> r[i] == if i < k then cs[i] else cs[i + 1];
  }

  // Joining puts one new client in front, leaving takes out exactly one, a status change is the
  // client's own, and nothing else alters who is on the bus.
  lemma StepCards(b: Bus, op: Op)
    requires Ordered(b)
    ensures Ordered(Step(b, op))
    ensures Cards(Step(b, op).clients) == CardsAfter(b, op)
  {
    match op
    case Join(nick) => JoinCards(b, nick);
    case Leave(id) => LeaveCards(b, id);
    case SetStatus(id, status) => StatusCards(b, id, status);
    case _ => OtherCards(b, op);
  }

  lemma AnnounceCards(cs: seq<Client>, e: Entry)
    ensures Cards(Announce(cs, e)) == Cards(cs)
    ensures forall n :: Ordered(Bus(cs, n)) ==> Ordered(Bus(Announce(cs, e), n))
  {
    SameCards(cs, Announce(cs, e));
  }

  lemma BroadcastCards(cs: seq<Client>, who: Client)
    ensures Cards(Broadcast(cs, who)) == Cards(cs)
    ensures forall n :: Ordered(Bus(cs, n)) ==> Ordered(Bus(Broadcast(cs, who), n))
  {
    SameCards(cs, Broadcast(cs, who));
  }

  lemma UpdateCards(cs: seq<Client>, k: nat, c: Client)
    requires k < |cs| && c.id == cs[k].id && c.nick == cs[k].nick
    ensures Cards(cs[k := c]) == Cards(cs)[k := CardOf(c)]
    ensures forall n :: Ordered(Bus(cs, n)) ==> Ordered(Bus(cs[k := c], n))
  {
  }

  lemma JoinCards(b: Bus, nick: string)
    requires Ordered(b)
    ensures Ordered(Step(b, Join(nick))) && Cards(Step(b, Join(nick)).clients) == CardsAfter(b, Join(nick))
  {
    var c := NewClient(b.nextId, nick);
    var cs := [c] + b.clients;
    assert Ordered(Bus(cs, b.nextId + 1));
    assert Cards(cs) == [CardOf(c)] + Cards(b.clients);
    hide Ordered, Announce, Broadcast, NewClient, JoinNotice, Cards;
    BroadcastCards(cs, c);
    AnnounceCards(Broadcast(cs, c), JoinNotice(c.nick));
  }

  lemma LeaveCards(b: Bus, id: int)
    requires Ordered(b)
    ensures Ordered(Step(b, Leave(id))) && Cards(Step(b, Leave(id)).clients) == CardsAfter(b, Leave(id))
  {
    hide Ordered, Announce, Broadcast, PartNotice, Place;
    var cs := b.clients;
    if Present(cs, id) {
      var k := Place(cs, id);
      var notice := PartNotice(cs[k].nick);
      var told := Announce(cs, notice);
      AnnounceCards(cs, notice);
      var gone := told[k].(status := OFFLINE);
      UpdateCards(told, k, gone);
      var heard := Broadcast(told[k := gone], gone);
      BroadcastCards(told[k := gone], gone);
      OrderedWithout(heard, b.nextId, k);
      var cards := Cards(cs);
      assert cards[k := CardOf(gone)][..k] == cards[..k] && cards[k := CardOf(gone)][k + 1..] == cards[k + 1..];
    }
  }

  lemma StatusCards(b: Bus, id: int, status: Status)
    requires Ordered(b)
    ensures Ordered(Step(b, SetStatus(id, status)))
    ensures Cards(Step(b, SetStatus(id, status)).clients) == CardsAfter(b, SetStatus(id, status))
  {
    hide Ordered, Broadcast, Place;
    if Present(b.clients, id) {
      var k := Place(b.clients, id);
      var c := b.clients[k].(status := status);
      UpdateCards(b.clients, k, c);
      BroadcastCards(b.clients[k := c], c);
    }
  }

  lemma OtherCards(b: Bus, op: Op)
    requires Ordered(b) && !op.Join? && !op.Leave? && !op.SetStatus?
    ensures Ordered(Step(b, op)) && Cards(Step(b, op).clients) == Cards(b.clients)
  {
    hide Find, BotReply, Place, MakeEntry, Appended;
    SameCards(b.clients, Step(b, op).clients);
  }

  lemma {:induction false} RunIsOrdered(b: Bus, ops: seq<Op>)
    requires Ordered(b)
    ensures Ordered(Run(b, ops))
    decreases |ops|
  {
    hide Ordered, Step;
    if ops != [] {
      StepCards(b, ops[0]);
      RunIsOrdered(Step(b, ops[0]), ops[1..]);
    }
  }

  // ----- one client's view of one operation

  // The entries a message puts on the bus: itself, and the bot's answer.
  function Spoken(nick: string, text: string): seq<Entry>
  {
    [MakeEntry(nick, text, GROUPCHAT)] +
    match BotReply(nick, text) case None => [] case Some(e) => [e]
  }

  function TellAll(c: Client, es: seq<Entry>): Client
    decreases |es|
  {
    if es == [] then c else TellAll(Told(c, es[0]), es[1..])
  }

  function Effect(b: Bus, op: Op, c: Client): Client
  {
    var cs := b.clients;
    match op
    case Join(nick) =>
      var n := NewClient(b.nextId, nick);
      Told(Hears(c, n), JoinNotice(n.nick))
    case Leave(id) =>
      if !Present(cs, id) then c
      else
        var notice := PartNotice(TheClient(cs, id).nick);
        Hears(Told(c, notice), Told(TheClient(cs, id), notice).(status := OFFLINE))
    case SetStatus(id, status) =>
      if !Present(cs, id) then c
      else if c.id == id then c.(status := status)
      else Hears(c, TheClient(cs, id).(status := status))
    case Say(id, text) =>
      if !Present(cs, id) || text == "" then c
      else TellAll(c, Spoken(TheClient(cs, id).nick, text))
    case OpenRoom(id) =>
      if c.id == id && c.room.None? then c.(room := Some([Welcome()])) else c
    case AddBuddy(id, jid, nick, group) =>
      if c.id == id && |c.roster| < MAX_ROSTER then c.(roster := c.roster + [Buddy(jid, nick, group)]) else c
  }

  lemma SamePlace(cs: seq<Client>, r: seq<Client>, id: int)
    requires |r| == |cs| && forall i :: 0 <= i < |cs| ==> r[i].id == cs[i].id
    ensures Place(r, id) == Place(cs, id)
  {
  }

  lemma PlaceBehind(c: Client, cs: seq<Client>, id: int)
    requires c.id != id
    ensures Place([c] + cs, id) == 1 + Place(cs, id)
  {
    assert ([c] + cs)[1..] == cs;
  }

  lemma PlaceWithout(cs: seq<Client>, k: nat, id: int)
    requires k < |cs| && cs[k].id != id
    ensures var r := cs[..k] + cs[k + 1..];
            Place(r, id) == if Place(cs, id) < k then Place(cs, id) else Place(cs, id) - 1
  {
    hide Place;
    var r := cs[..k] + cs[k + 1..];
    assert forall i :: 0 <= i < |r| ==> r[i] == if i < k then cs[i] else cs[i + 1];
    assert forall i :: 0 <= i < k ==> cs[i] == r[i];
    assert forall i :: k < i < |cs| ==> cs[i] == r[i - 1];
    var p, q := Place(cs, id), Place(r, id);
    assert p < |cs| ==> p != k;
    assert q < |r| && q >= k ==> cs[q + 1].id == id;
  }

  // The whole-list operations do to each client what Effect says.
  lemma StepEffect(b: Bus, op: Op, id: int)
    requires Ordered(b) && Present(b.clients, id) && op != Leave(id)
    ensures Present(Step(b, op).clients, id)
    ensures TheClient(Step(b, op).clients, id) == Effect(b, op, TheClient(b.clients, id))
  {
    match op
    case Join(nick) => JoinEffect(b, nick, id);
    case Leave(other) => LeaveEffect(b, other, id);
    case Say(other, text) => SayEffect(b, other, text, id);
    case _ => PlainEffect(b, op, id);
  }

  lemma AnnounceAt(cs: seq<Client>, e: Entry, id: int)
    ensures Place(Announce(cs, e), id) == Place(cs, id)
    ensures Present(cs, id) ==> TheClient(Announce(cs, e), id) == Told(TheClient(cs, id), e)
  {
    SamePlace(cs, Announce(cs, e), id);
  }

  lemma BroadcastAt(cs: seq<Client>, who: Client, id: int)
    ensures Place(Broadcast(cs, who), id) == Place(cs, id)
    ensures Present(cs, id) ==> TheClient(Broadcast(cs, who), id) == Hears(TheClient(cs, id), who)
  {
    SamePlace(cs, Broadcast(cs, who), id);
  }

  lemma UpdateAt(cs: seq<Client>, k: nat, c: Client, id: int)
    requires k < |cs| && c.id == cs[k].id && cs[k].id != id
    ensures Place(cs[k := c], id) == Place(cs, id)
    ensures Present(cs, id) ==> TheClient(cs[k := c], id) == TheClient(cs, id)
  {
    SamePlace(cs, cs[k := c], id);
  }

  lemma WithoutAt(cs: seq<Client>, k: nat, id: int)
    requires k < |cs| && cs[k].id != id
    ensures Present(cs[..k] + cs[k + 1..], id) == Present(cs, id)
    ensures Present(cs, id) ==> TheClient(cs[..k] + cs[k + 1..], id) == TheClient(cs, id)
  {
    PlaceWithout(cs, k, id);
    var r := cs[..k] + cs[k + 1..];
    assert forall i :: 0 <= i < |r| ==> r[i] == if i < k then cs[i] else cs[i + 1];
  }

  lemma JoinsBehind(c: Client, cs: seq<Client>, id: int)
    requires Present(cs, id) && c.id != id
    ensures Present([c] + cs, id) && TheClient([c] + cs, id) == TheClient(cs, id)
  {
    PlaceBehind(c, cs, id);
  }

  lemma JoinEffect(b: Bus, nick: string, id: int)
    requires Ordered(b) && Present(b.clients, id)
    ensures Present(Step(b, Join(nick)).clients, id)
    ensures TheClient(Step(b, Join(nick)).clients, id) == Effect(b, Join(nick), TheClient(b.clients, id))
  {
    var c := NewClient(b.nextId, nick);
    var cs := [c] + b.clients;
    assert TheClient(b.clients, id).id < b.nextId == c.id;
    hide Announce, Broadcast, Place, Told, Hears, JoinNotice, NewClient, Ordered;
    JoinsBehind(c, b.clients, id);
    BroadcastAt(cs, c, id);
    AnnounceAt(Broadcast(cs, c), JoinNotice(c.nick), id);
  }

  lemma LeaveEffect(b: Bus, other: int, id: int)
    requires Ordered(b) && Present(b.clients, id) && other != id
    ensures Present(Step(b, Leave(other)).clients, id)
    ensures TheClient(Step(b, Leave(other)).clients, id) == Effect(b, Leave(other), TheClient(b.clients, id))
  {
    hide Announce, Broadcast, Place, Told, Hears, PartNotice;
    var cs := b.clients;
    if Present(cs, other) {
      var k := Place(cs, other);
      var notice := PartNotice(cs[k].nick);
      var told := Announce(cs, notice);
      AnnounceAt(cs, notice, id);
      ToldId(cs[k], notice);
      var gone := told[k].(status := OFFLINE);
      UpdateAt(told, k, gone, id);
      BroadcastAt(told[k := gone], gone, id);
      HearsId(gone);
      WithoutAt(Broadcast(told[k := gone], gone), k, id);
    }
  }

  lemma ToldId(c: Client, e: Entry)
    ensures Told(c, e).id == c.id
  {
  }

  lemma HearsId(c: Client)
    ensures Hears(c, c) == c
  {
  }

  lemma SayEffect(b: Bus, other: int, text: string, id: int)
    requires Ordered(b) && Present(b.clients, id)
    ensures Present(Step(b, Say(other, text)).clients, id)
    ensures TheClient(Step(b, Say(other, text)).clients, id) == Effect(b, Say(other, text), TheClient(b.clients, id))
  {
    hide Announce, Place, Told, Spoken, MakeEntry, BotReply, Ordered;
    var cs := b.clients;
    if Present(cs, other) && text != "" {
      var nick := TheClient(cs, other).nick;
      var e := MakeEntry(nick, text, GROUPCHAT);
      AnnounceAt(cs, e, id);
      TellSpoken(TheClient(cs, id), nick, text);
      if BotReply(nick, text).Some? {
        AnnounceAt(Announce(cs, e), BotReply(nick, text).value, id);
      }
    }
  }

  lemma TellSpoken(c: Client, nick: string, text: string)
    ensures var said := Told(c, MakeEntry(nick, text, GROUPCHAT));
            TellAll(c, Spoken(nick, text)) ==
            match BotReply(nick, text) case None => said case Some(e) => Told(said, e)
  {
    hide Told, MakeEntry, BotReply;
    var m := MakeEntry(nick, text, GROUPCHAT);
    var es := Spoken(nick, text);
    if BotReply(nick, text).Some? {
      assert es[1..] == [BotReply(nick, text).value];
      TellOne(Told(c, m), BotReply(nick, text).value);
    } else {
      assert es == [m];
      TellOne(c, m);
    }
  }

  lemma TellOne(c: Client, e: Entry)
    ensures TellAll(c, [e]) == Told(c, e)
  {
    assert [e][1..] == [];
  }

  lemma PlainEffect(b: Bus, op: Op, id: int)
    requires Ordered(b) && Present(b.clients, id)
    requires op.SetStatus? || op.OpenRoom? || op.AddBuddy?
    ensures Present(Step(b, op).clients, id)
    ensures TheClient(Step(b, op).clients, id) == Effect(b, op, TheClient(b.clients, id))
  {
    hide Find, Heard, Appended, MakeEntry, Broadcast;
    SamePlace(b.clients, Step(b, op).clients, id);
  }

  // ----- transcripts

  // The entries one operation, and a run of them, put on the bus.
  function Log(b: Bus, op: Op): seq<Entry>
  {
    match op
    case Join(nick) => [JoinNotice(Trunc(nick, 31))]
    case Leave(id) => if Present(b.clients, id) then [PartNotice(TheClient(b.clients, id).nick)] else []
    case Say(id, text) =>
      if Present(b.clients, id) && text != "" then Spoken(TheClient(b.clients, id).nick, text) else []
    case _ => []
  }

  function LogOf(b: Bus, ops: seq<Op>): seq<Entry>
    decreases |ops|
  {
    if ops == [] then [] else Log(b, ops[0]) + LogOf(Step(b, ops[0]), ops[1..])
  }

  lemma {:induction false} TellAllRoom(c: Client, es: seq<Entry>)
    requires c.room.Some? && |c.room.value| <= MAX_HISTORY
    ensures TellAll(c, es).room == Some(Last(c.room.value + es, MAX_HISTORY))
    decreases |es|
  {
    var h := c.room.value;
    if es == [] {
      assert h + es == h;
    } else {
      TellAllRoom(Told(c, es[0]), es[1..]);
      LastOfLast(h + [es[0]], es[1..], MAX_HISTORY);
      assert h + [es[0]] + es[1..] == h + es;
    }
  }

  lemma EffectRoom(b: Bus, op: Op, c: Client)
    requires c.room.Some? && |c.room.value| <= MAX_HISTORY
    ensures Effect(b, op, c).room == Some(Last(c.room.value + Log(b, op), MAX_HISTORY))
  {
    hide Heard, MakeEntry, Spoken;
    assert c.room.value + [] == c.room.value;
    if op.Say? && Present(b.clients, op.id) && op.text != "" {
      TellAllRoom(c, Spoken(TheClient(b.clients, op.id).nick, op.text));
    }
  }

  // While a client stays with its room open, its transcript is what it was and all the bus carried
  // since, the last 64 entries of it.
  lemma {:induction false} TranscriptOverRun(b: Bus, ops: seq<Op>, id: int)
    requires Ordered(b) && Present(b.clients, id) && Leave(id) !in ops
    requires TheClient(b.clients, id).room.Some? && |TheClient(b.clients, id).room.value| <= MAX_HISTORY
    ensures Present(Run(b, ops).clients, id)
    ensures TheClient(Run(b, ops).clients, id).room ==
            Some(Last(TheClient(b.clients, id).room.value + LogOf(b, ops), MAX_HISTORY))
    decreases |ops|
  {
    hide Effect, Step, Log, Ordered;
    var h := TheClient(b.clients, id).room.value;
    if ops == [] {
      assert h + LogOf(b, ops) == h;
    } else {
      var op, next := ops[0], Step(b, ops[0]);
      assert op in ops && op != Leave(id);
      StepCards(b, op);
      StepEffect(b, op, id);
      EffectRoom(b, op, TheClient(b.clients, id));
      TranscriptOverRun(next, ops[1..], id);
      LastOfLast(h + Log(b, op), LogOf(next, ops[1..]), MAX_HISTORY);
      assert h + Log(b, op) + LogOf(next, ops[1..]) == h + LogOf(b, ops);
    }
  }

  // Two clients in the room agree on everything said since both were there, as far back as 64
  // entries.
  lemma RoomAgreement(b: Bus, ops: seq<Op>, a: int, c: int)
    requires Ordered(b) && Present(b.clients, a) && Present(b.clients, c)
    requires Leave(a) !in ops && Leave(c) !in ops
    requires forall id :: id == a || id == c ==>
      TheClient(b.clients, id).room.Some? && |TheClient(b.clients, id).room.value| <= MAX_HISTORY
    ensures var recent := Last(LogOf(b, ops), MAX_HISTORY);
            var after := Run(b, ops).clients;
            && Present(after, a) && TheClient(after, a).room.Some?
            && Present(after, c) && TheClient(after, c).room.Some?
            && Last(TheClient(after, a).room.value, |recent|) == recent
            && Last(TheClient(after, c).room.value, |recent|) == recent
  {
    hide Run, LogOf, Ordered;
    TranscriptOverRun(b, ops, a);
    TranscriptOverRun(b, ops, c);
    EndsWithLog(TheClient(b.clients, a).room.value, LogOf(b, ops));
    EndsWithLog(TheClient(b.clients, c).room.value, LogOf(b, ops));
  }

  lemma EndsWithLog(h: seq<Entry>, log: seq<Entry>)
    ensures var recent := Last(log, MAX_HISTORY);
            Last(Last(h + log, MAX_HISTORY), |recent|) == recent
  {
  }

  // ----- every run from the empty bus

  ghost predicate RoomsFit(cs: seq<Client>)
  {
    forall i :: 0 <= i < |cs| && cs[i].room.Some? ==> |cs[i].room.value| <= MAX_HISTORY
  }

  lemma AnnounceFits(cs: seq<Client>, e: Entry)
    requires RoomsFit(cs)
    ensures RoomsFit(Announce(cs, e))
  {
  }

  lemma BroadcastFits(cs: seq<Client>, who: Client)
    requires RoomsFit(cs)
    ensures RoomsFit(Broadcast(cs, who))
  {
    hide Heard;
  }

  lemma StepRoomsFit(b: Bus, op: Op)
    requires RoomsFit(b.clients)
    ensures RoomsFit(Step(b, op).clients)
  {
    hide Announce, Broadcast, BotReply, MakeEntry, JoinNotice, PartNotice, Place;
    var cs := b.clients;
    match op
    case Join(nick) =>
      var c := NewClient(b.nextId, nick);
      BroadcastFits([c] + cs, c);
      AnnounceFits(Broadcast([c] + cs, c), JoinNotice(c.nick));
    case Leave(id) =>
      if Present(cs, id) {
        LeaveRoomsFit(cs, Place(cs, id));
      }
    case SetStatus(id, status) =>
      if Present(cs, id) {
        var k := Place(cs, id);
        var c := cs[k].(status := status);
        BroadcastFits(cs[k := c], c);
      }
    case Say(id, text) =>
      if Present(cs, id) {
        SaidFits(cs, TheClient(cs, id).nick, text);
      }
    case _ =>
  }

  lemma SaidFits(cs: seq<Client>, nick: string, text: string)
    requires RoomsFit(cs)
    ensures RoomsFit(SaidBy(cs, nick, text))
  {
    hide Announce, BotReply, MakeEntry, RoomsFit;
    var said := Announce(cs, MakeEntry(nick, text, GROUPCHAT));
    AnnounceFits(cs, MakeEntry(nick, text, GROUPCHAT));
    if BotReply(nick, text).Some? {
      AnnounceFits(said, BotReply(nick, text).value);
    }
  }

  lemma LeaveRoomsFit(cs: seq<Client>, k: nat)
    requires RoomsFit(cs) && k < |cs|
    ensures var told := Announce(cs, PartNotice(cs[k].nick));
            var gone := told[k].(status := OFFLINE);
            var heard := Broadcast(told[k := gone], gone);
            RoomsFit(heard[..k] + heard[k + 1..])
  {
    hide Announce, Broadcast, PartNotice;
    var told := Announce(cs, PartNotice(cs[k].nick));
    AnnounceFits(cs, PartNotice(cs[k].nick));
    var gone := told[k].(status := OFFLINE);
    BroadcastFits(told[k := gone], gone);
  }

  lemma {:induction false} RunRoomsFit(b: Bus, ops: seq<Op>)
    requires RoomsFit(b.clients)
    ensures RoomsFit(Run(b, ops).clients)
    decreases |ops|
  {
    hide RoomsFit, Step;
    if ops != [] {
      StepRoomsFit(b, ops[0]);
      RunRoomsFit(Step(b, ops[0]), ops[1..]);
    }
  }

  // In every run from the start: two clients that are in the room at some point and stay agree
  // from then on.
  lemma RoomAgreementInEveryRun(before: seq<Op>, ops: seq<Op>, a: int, c: int)
    requires var b := Run(EMPTY, before);
             && Present(b.clients, a) && TheClient(b.clients, a).room.Some?
             && Present(b.clients, c) && TheClient(b.clients, c).room.Some?
    requires Leave(a) !in ops && Leave(c) !in ops
    ensures var b := Run(EMPTY, before);
            var recent := Last(LogOf(b, ops), MAX_HISTORY);
            var after := Run(b, ops).clients;
            && Present(after, a) && TheClient(after, a).room.Some?
            && Present(after, c) && TheClient(after, c).room.Some?
            && Last(TheClient(after, a).room.value, |recent|) == recent
            && Last(TheClient(after, c).room.value, |recent|) == recent
  {
    hide Run, LogOf;
    RunIsOrdered(EMPTY, before);
    RunRoomsFit(EMPTY, before);
    RoomAgreement(Run(EMPTY, before), ops, a, c);
  }
}
