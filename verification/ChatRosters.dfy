/** What a client's roster says of the others, over every run. */
module ChatRosters {
  import opened CStrings
  import opened ChatModel
  import opened ChatRuns

  // A nick's last announced status and status text.
  type News = map<string, (Status, string)>

  function NewsOf(who: Client): (Status, string) { (who.status, Trunc(who.statusText, 63)) }

  // Who broadcasts presence in an operation, as announced.
  function Caster(b: Bus, op: Op): Option<Client>
  {
    match op
    case Join(nick) => Some(NewClient(b.nextId, nick))
    case Leave(id) =>
      if Present(b.clients, id)
      then Some(Told(TheClient(b.clients, id), PartNotice(TheClient(b.clients, id).nick)).(status := OFFLINE))
      else None
    case SetStatus(id, status) =>
      if Present(b.clients, id) then Some(TheClient(b.clients, id).(status := status)) else None
    case _ => None
  }

  function NewsAfter(b: Bus, op: Op, a: int, news: News): News
  {
    match Caster(b, op)
    case None => news
    case Some(who) => if who.id == a then news else news[who.nick := NewsOf(who)]
  }

  // Everything announced to client a in a run, the latest under each nick.
  function NewsOver(b: Bus, ops: seq<Op>, a: int, news: News): News
    decreases |ops|
  {
    if ops == [] then news else NewsOver(Step(b, ops[0]), ops[1..], a, NewsAfter(b, ops[0], a, news))
  }

  // ----- the roster keeps the news

  // The first entry under each nick in the news says what was announced last; a nick may be
  // missing only from a full roster.
  ghost predicate Keeps(r: seq<RosterItem>, news: News)
  {
    forall nick :: nick in news ==>
      var k := FirstNick(r, nick);
      if k < |r| then (r[k].status, r[k].text) == news[nick] else |r| >= MAX_ROSTER
  }

  lemma {:induction false} FirstNickAppend(r: seq<RosterItem>, x: RosterItem, nick: string)
    ensures FirstNick(r + [x], nick) ==
            if FirstNick(r, nick) < |r| then FirstNick(r, nick) else if x.nick == nick then |r| else |r| + 1
  {
    var k := FirstNick(r + [x], nick);
    if FirstNick(r, nick) < |r| {
      FirstNickIs(r + [x], nick, FirstNick(r, nick));
    } else if x.nick == nick {
      FirstNickIs(r + [x], nick, |r|);
    }
  }

  lemma FirstNickIs(r: seq<RosterItem>, nick: string, k: nat)
    requires k < |r| && r[k].nick == nick && forall i :: 0 <= i < k ==> r[i].nick != nick
    ensures FirstNick(r, nick) == k
  {
  }

  lemma FirstNickUpdate(r: seq<RosterItem>, k: nat, x: RosterItem, nick: string)
    requires k < |r| && x.nick == r[k].nick
    ensures FirstNick(r[k := x], nick) == FirstNick(r, nick)
  {
    var j := FirstNick(r, nick);
    if j < |r| {
      FirstNickIs(r[k := x], nick, j);
    } else {
      NoNick(r[k := x], nick);
    }
  }

  lemma {:induction false} NoNick(r: seq<RosterItem>, nick: string)
    requires forall i :: 0 <= i < |r| ==> r[i].nick != nick
    ensures FirstNick(r, nick) == |r|
  {
    if r != [] {
      NoNick(r[1..], nick);
    }
  }

  lemma HeardKeeps(r: seq<RosterItem>, who: Client, news: News)
    requires Keeps(r, news) && |who.nick| <= 31
    ensures Keeps(Heard(r, who), news[who.nick := NewsOf(who)])
  {
    var r' := Heard(r, who);
    forall nick | nick in news[who.nick := NewsOf(who)]
      ensures var k := FirstNick(r', nick);
              if k < |r'| then (r'[k].status, r'[k].text) == news[who.nick := NewsOf(who)][nick] else |r'| >= MAX_ROSTER
    {
      var k := FirstNick(r, who.nick);
      if k < |r| {
        FirstNickUpdate(r, k, r'[k], nick);
      } else if |r| < MAX_ROSTER {
        FirstNickAppend(r, r'[|r|], nick);
      }
    }
  }

  lemma BuddyKeeps(r: seq<RosterItem>, x: RosterItem, news: News)
    requires Keeps(r, news) && |r| < MAX_ROSTER
    ensures Keeps(r + [x], news)
  {
    forall nick | nick in news
      ensures var k := FirstNick(r + [x], nick);
              k < |r| && ((r + [x])[k].status, (r + [x])[k].text) == news[nick]
    {
      FirstNickAppend(r, x, nick);
    }
  }

  lemma {:induction false} TellAllRoster(c: Client, es: seq<Entry>)
    ensures TellAll(c, es).roster == c.roster
    decreases |es|
  {
    if es != [] {
      TellAllRoster(Told(c, es[0]), es[1..]);
    }
  }

  lemma EffectRoster(b: Bus, op: Op, c: Client)
    requires op != Leave(c.id) && c.id < b.nextId
    ensures Effect(b, op, c).roster ==
            match Caster(b, op)
            case Some(who) => if who.id == c.id then c.roster else Heard(c.roster, who)
            case None =>
              if op.AddBuddy? && op.id == c.id && |c.roster| < MAX_ROSTER
              then c.roster + [Buddy(op.jid, op.nick, op.group)] else c.roster
  {
    hide Heard, Appended, BotReply, PartNotice, JoinNotice;
    if op.Say? && Present(b.clients, op.id) && op.text != "" {
      TellAllRoster(c, Spoken(TheClient(b.clients, op.id).nick, op.text));
    }
  }

  lemma CasterNick(b: Bus, op: Op)
    requires Ordered(b)
    ensures Caster(b, op).Some? ==> |Caster(b, op).value.nick| <= 31
  {
  }

  lemma EffectKeeps(b: Bus, op: Op, c: Client, news: News)
    requires Ordered(b) && Keeps(c.roster, news) && op != Leave(c.id) && c.id < b.nextId
    ensures Keeps(Effect(b, op, c).roster, NewsAfter(b, op, c.id, news))
  {
    hide Keeps, Effect, Heard, Ordered;
    EffectRoster(b, op, c);
    CasterNick(b, op);
    if Caster(b, op).Some? {
      HeardKeeps(c.roster, Caster(b, op).value, news);
    } else if op.AddBuddy? && op.id == c.id && |c.roster| < MAX_ROSTER {
      BuddyKeeps(c.roster, Buddy(op.jid, op.nick, op.group), news);
    }
  }

  // A registered client's roster keeps all it has been told since.
  lemma {:induction false} RosterOverRun(b: Bus, ops: seq<Op>, a: int, news: News)
    requires Ordered(b) && Present(b.clients, a) && Leave(a) !in ops
    requires Keeps(TheClient(b.clients, a).roster, news)
    ensures Present(Run(b, ops).clients, a)
    ensures Keeps(TheClient(Run(b, ops).clients, a).roster, NewsOver(b, ops, a, news))
    decreases |ops|
  {
    hide Keeps, Effect, Step, NewsAfter;
    if ops != [] {
      var op := ops[0];
      assert op in ops && op != Leave(a);
      StepCards(b, op);
      StepEffect(b, op, a);
      EffectKeeps(b, op, TheClient(b.clients, a), news);
      RosterOverRun(Step(b, op), ops[1..], a, NewsAfter(b, op, a, news));
    }
  }

  // ----- the news is true

  // At most one client holds the nick.
  ghost predicate Sole(cards: seq<Card>, nick: string)
  {
    forall i, j :: 0 <= i < j < |cards| && cards[i].nick == nick ==> cards[j].nick != nick
  }

  // Nobody joins under the nick while it is in use.
  ghost predicate FreshFor(b: Bus, ops: seq<Op>, nick: string)
    decreases |ops|
  {
    ops != [] ==>
      && (ops[0].Join? && Trunc(ops[0].nick, 31) == nick ==> Unused(b.clients, nick))
      && FreshFor(Step(b, ops[0]), ops[1..], nick)
  }

  ghost predicate Unused(cs: seq<Client>, nick: string)
  {
    forall i :: 0 <= i < |cs| ==> cs[i].nick != nick
  }

  function CardNews(c: Card): (Status, string) { (c.status, Trunc(c.text, 63)) }

  // The news under the nick is its registered holder's, or says offline when it has none.
  ghost predicate True(cards: seq<Card>, news: News, own: string, nick: string)
  {
    nick in news ==>
      && own != nick
      && (forall i :: 0 <= i < |cards| && cards[i].nick == nick ==> news[nick] == CardNews(cards[i]))
      && ((forall i :: 0 <= i < |cards| ==> cards[i].nick != nick) ==> news[nick].0 == OFFLINE)
  }

  lemma JoinTrue(cards: seq<Card>, c: Card, news: News, own: string, nick: string)
    requires Sole(cards, nick) && True(cards, news, own, nick)
    requires c.nick == nick ==> own != nick && forall i :: 0 <= i < |cards| ==> cards[i].nick != nick
    ensures Sole([c] + cards, nick) && True([c] + cards, news[c.nick := CardNews(c)], own, nick)
  {
    var r := [c] + cards;
    assert r[0] == c;
    assert forall i :: 0 <= i < |cards| ==> r[i + 1] == cards[i];
    assert forall i :: 0 < i < |r| ==> r[i] == cards[i - 1];
  }

  lemma LeaveTrue(cards: seq<Card>, k: nat, news: News, own: string, nick: string)
    requires Sole(cards, nick) && True(cards, news, own, nick) && k < |cards|
    requires cards[k].nick == nick ==> own != nick
    ensures var gone := cards[k].(status := OFFLINE);
            Sole(cards[..k] + cards[k + 1..], nick) &&
            True(cards[..k] + cards[k + 1..], news[gone.nick := CardNews(gone)], own, nick)
  {
    var r := cards[..k] + cards[k + 1..];
    assert forall i :: 0 <= i < |r| ==> r[i] == if i < k then cards[i] else cards[i + 1];
    assert forall i :: 0 <= i < k ==> r[i] == cards[i];
    assert forall i :: k < i < |cards| ==> r[i - 1] == cards[i];
  }

  // mine: it is the listening client's own status.
  lemma StatusTrue(cards: seq<Card>, k: nat, status: Status, news: News, own: string, mine: bool, nick: string)
    requires Sole(cards, nick) && True(cards, news, own, nick) && k < |cards|
    requires if mine then cards[k].nick == own else cards[k].nick == nick ==> own != nick
    ensures var c := cards[k].(status := status);
            Sole(cards[k := c], nick) &&
            True(cards[k := c], if mine then news else news[c.nick := CardNews(c)], own, nick)
  {
    var r := cards[k := cards[k].(status := status)];
    assert forall i :: 0 <= i < |cards| ==> r[i].nick == cards[i].nick;
  }

  lemma TrueStep(b: Bus, op: Op, a: int, news: News, nick: string)
    requires Ordered(b) && Present(b.clients, a) && op != Leave(a)
    requires op.Join? && Trunc(op.nick, 31) == nick ==> Unused(b.clients, nick)
    requires Sole(Cards(b.clients), nick) && True(Cards(b.clients), news, TheClient(b.clients, a).nick, nick)
    ensures Sole(CardsAfter(b, op), nick)
    ensures True(CardsAfter(b, op), NewsAfter(b, op, a, news), TheClient(b.clients, a).nick, nick)
  {
    hide True, Sole, Ordered;
    if op.Join? {
      OldId(b, a);
      var c := NewClient(b.nextId, op.nick);
      assert c.nick == Trunc(op.nick, 31);
      JoinTrue(Cards(b.clients), CardOf(c), news, TheClient(b.clients, a).nick, nick);
    } else if op.Leave? || op.SetStatus? {
      OwnStep(b, op, a, news, nick);
    }
  }

  lemma OwnStep(b: Bus, op: Op, a: int, news: News, nick: string)
    requires Present(b.clients, a) && (op.SetStatus? || (op.Leave? && op.id != a))
    requires Sole(Cards(b.clients), nick) && True(Cards(b.clients), news, TheClient(b.clients, a).nick, nick)
    ensures Sole(CardsAfter(b, op), nick)
    ensures True(CardsAfter(b, op), NewsAfter(b, op, a, news), TheClient(b.clients, a).nick, nick)
  {
    hide True, Sole;
    var cs, own := b.clients, TheClient(b.clients, a).nick;
    if Present(cs, op.id) {
      var k := Place(cs, op.id);
      OneHolder(cs, k, Place(cs, a), nick);
      hide Cards;
      if op.Leave? {
        LeaveTrue(Cards(cs), k, news, own, nick);
      } else {
        StatusTrue(Cards(cs), k, op.status, news, own, op.id == a, nick);
      }
    }
  }

  lemma OneHolder(cs: seq<Client>, i: nat, j: nat, nick: string)
    requires Sole(Cards(cs), nick) && i < |cs| && j < |cs|
    ensures cs[i].nick == nick && cs[j].nick == nick ==> i == j
  {
    var cards := Cards(cs);
    assert i < j && cards[i].nick == nick ==> cards[j].nick != nick;
    assert j < i && cards[j].nick == nick ==> cards[i].nick != nick;
  }

  lemma OldId(b: Bus, a: int)
    requires Ordered(b) && Present(b.clients, a)
    ensures a < b.nextId
  {
  }

  lemma {:induction false} TrueOverRun(b: Bus, ops: seq<Op>, a: int, news: News, nick: string)
    requires Ordered(b) && Present(b.clients, a) && Leave(a) !in ops
    requires FreshFor(b, ops, nick) && Sole(Cards(b.clients), nick)
    requires True(Cards(b.clients), news, TheClient(b.clients, a).nick, nick)
    ensures Present(Run(b, ops).clients, a)
    ensures True(Cards(Run(b, ops).clients), NewsOver(b, ops, a, news), TheClient(b.clients, a).nick, nick)
    decreases |ops|
  {
    hide True, Sole, Effect, Step, NewsAfter, Ordered, Unused;
    if ops != [] {
      var op := ops[0];
      assert op in ops && op != Leave(a);
      TrueStep(b, op, a, news, nick);
      StepCards(b, op);
      StepEffect(b, op, a);
      EffectNick(b, op, TheClient(b.clients, a));
      TrueOverRun(Step(b, op), ops[1..], a, NewsAfter(b, op, a, news), nick);
    }
  }

  lemma EffectNick(b: Bus, op: Op, c: Client)
    ensures Effect(b, op, c).nick == c.nick
  {
    hide Heard, Appended;
    if op.Say? && Present(b.clients, op.id) && op.text != "" {
      TellAllNick(c, Spoken(TheClient(b.clients, op.id).nick, op.text));
    }
  }

  lemma {:induction false} TellAllNick(c: Client, es: seq<Entry>)
    ensures TellAll(c, es).nick == c.nick
    decreases |es|
  {
    if es != [] {
      TellAllNick(Told(c, es[0]), es[1..]);
    }
  }

  // For every nick announced to client a since it joined that nobody else took while it was in
  // use: the first entry under it in a's roster shows the registered client's status and text, or
  // offline when nobody of that nick is registered any more; it can be missing only from a full
  // roster.
  lemma RosterAgreement(b: Bus, ops: seq<Op>, a: int, nick: string)
    requires Ordered(b) && Present(b.clients, a) && Leave(a) !in ops
    requires FreshFor(b, ops, nick) && Sole(Cards(b.clients), nick)
    requires nick in NewsOver(b, ops, a, map[])
    ensures var after := Run(b, ops).clients;
            && Present(after, a)
            && var r := TheClient(after, a).roster;
               var k := FirstNick(r, nick);
               if k < |r| then
                 && (forall c :: c in after && c.nick == nick ==>
                       r[k].status == c.status && r[k].text == Trunc(c.statusText, 63))
                 && ((forall c :: c in after ==> c.nick != nick) ==> r[k].status == OFFLINE)
               else |r| >= MAX_ROSTER
  {
    hide Run, NewsOver, Ordered, FreshFor, Sole;
    RosterOverRun(b, ops, a, map[]);
    TrueOverRun(b, ops, a, map[], nick);
    var after := Run(b, ops).clients;
    var news := NewsOver(b, ops, a, map[]);
    var cards := Cards(after);
    forall c | c in after && c.nick == nick
      ensures news[nick] == (c.status, Trunc(c.statusText, 63))
    {
      var i :| 0 <= i < |after| && after[i] == c;
      assert cards[i] == CardOf(c);
    }
    if forall c :: c in after ==> c.nick != nick {
      assert forall i :: 0 <= i < |cards| ==> cards[i].nick == after[i].nick;
    }
  }

  lemma HeardShows(r: seq<RosterItem>, who: Client)
    requires |who.nick| <= 31 && (FirstNick(r, who.nick) < |r| || |r| < MAX_ROSTER)
    ensures var r', k := Heard(r, who), FirstNick(Heard(r, who), who.nick);
            k < |r'| && (r'[k].status, r'[k].text) == NewsOf(who)
  {
    var k := FirstNick(r, who.nick);
    if k < |r| {
      FirstNickUpdate(r, k, Heard(r, who)[k], who.nick);
    } else {
      FirstNickAppend(r, Heard(r, who)[|r|], who.nick);
    }
  }

  // Why nicks must differ: when x leaves while y, who is not offline, has the same nick, every
  // roster with a place for that nick says offline.
  lemma SharedNickMisleads(b: Bus, a: int, x: int, y: int)
    requires Ordered(b) && Present(b.clients, a) && Present(b.clients, x) && Present(b.clients, y)
    requires a != x && y != x && TheClient(b.clients, y).nick == TheClient(b.clients, x).nick
    requires TheClient(b.clients, y).status != OFFLINE
    requires var r := TheClient(b.clients, a).roster;
             FirstNick(r, TheClient(b.clients, x).nick) < |r| || |r| < MAX_ROSTER
    ensures var after := Step(b, Leave(x)).clients;
            && Present(after, y) && TheClient(after, y).nick == TheClient(b.clients, x).nick
            && TheClient(after, y).status != OFFLINE
            && Present(after, a)
            && var r := TheClient(after, a).roster;
               var k := FirstNick(r, TheClient(b.clients, x).nick);
               k < |r| && r[k].status == OFFLINE
  {
    hide Heard, Ordered, Step, Place, Effect, Caster;
    StepEffect(b, Leave(x), a);
    StepEffect(b, Leave(x), y);
    LeaveCaster(b, x);
    LeaveKeepsCard(b, x, TheClient(b.clients, y));
    OldId(b, a);
    SameId(b.clients, a);
    CasterNick(b, Leave(x));
    EffectRoster(b, Leave(x), TheClient(b.clients, a));
    HeardShows(TheClient(b.clients, a).roster, Caster(b, Leave(x)).value);
  }

  lemma LeaveCaster(b: Bus, x: int)
    requires Present(b.clients, x)
    ensures Caster(b, Leave(x)).Some?
    ensures var who := Caster(b, Leave(x)).value;
            who.id == x && who.nick == TheClient(b.clients, x).nick && who.status == OFFLINE
  {
    hide PartNotice, Appended;
  }

  lemma LeaveKeepsCard(b: Bus, x: int, c: Client)
    ensures CardOf(Effect(b, Leave(x), c)) == CardOf(c)
  {
    hide PartNotice, Appended, Heard;
  }

  lemma SameId(cs: seq<Client>, id: int)
    requires Present(cs, id)
    ensures TheClient(cs, id).id == id
  {
  }

  // Everyone of this nick, but for some ids, is as the news says.
  ghost predicate Say(cards: seq<Card>, but: set<int>, nick: string, news: (Status, string))
  {
    forall i :: 0 <= i < |cards| && cards[i].nick == nick && cards[i].id !in but ==> CardNews(cards[i]) == news
  }

  lemma ClientsSay(cs: seq<Client>, but: set<int>, nick: string, news: (Status, string))
    ensures Say(Cards(cs), but, nick, news) <==>
            forall c :: c in cs && c.nick == nick && c.id !in but ==> NewsOf(c) == news
  {
    var cards := Cards(cs);
    if Say(cards, but, nick, news) {
      forall c | c in cs && c.nick == nick && c.id !in but
        ensures NewsOf(c) == news
      {
        var i :| 0 <= i < |cs| && cs[i] == c;
        assert cards[i] == CardOf(c);
      }
    } else {
      var i :| 0 <= i < |cards| && cards[i].nick == nick && cards[i].id !in but && CardNews(cards[i]) != news;
      assert cs[i] in cs && cards[i] == CardOf(cs[i]);
    }
  }

  lemma JoinSays(cards: seq<Card>, c: Card, a: int)
    requires forall i :: 0 <= i < |cards| ==> cards[i].id != c.id
    ensures Say([c] + cards, {a}, c.nick, CardNews(c)) <==> Say(cards, {a, c.id}, c.nick, CardNews(c))
  {
    var r := [c] + cards;
    assert forall i :: 0 <= i < |cards| ==> r[i + 1] == cards[i];
    assert forall i :: 0 < i < |r| ==> r[i] == cards[i - 1];
  }

  lemma LeaveSays(cards: seq<Card>, k: nat, a: int, nick: string, news: (Status, string))
    requires k < |cards| && forall i :: 0 <= i < |cards| && i != k ==> cards[i].id != cards[k].id
    ensures Say(cards[..k] + cards[k + 1..], {a}, nick, news) <==> Say(cards, {a, cards[k].id}, nick, news)
  {
    var r := cards[..k] + cards[k + 1..];
    assert forall i :: 0 <= i < |r| ==> r[i] == if i < k then cards[i] else cards[i + 1];
    assert forall i :: 0 <= i < k ==> r[i] == cards[i];
    assert forall i :: k < i < |cards| ==> r[i - 1] == cards[i];
  }

  lemma StatusSays(cards: seq<Card>, k: nat, status: Status, a: int)
    requires k < |cards| && forall i :: 0 <= i < |cards| && i != k ==> cards[i].id != cards[k].id
    ensures var c := cards[k].(status := status);
            Say(cards[k := c], {a}, c.nick, CardNews(c)) <==> Say(cards, {a, c.id}, c.nick, CardNews(c))
  {
    var c := cards[k].(status := status);
    assert forall i :: 0 <= i < |cards| ==> cards[k := c][i] == if i == k then c else cards[i];
  }

  lemma IdsDiffer(b: Bus, k: nat)
    requires Ordered(b) && k < |b.clients|
    ensures forall i :: 0 <= i < |b.clients| && i != k ==> Cards(b.clients)[i].id != Cards(b.clients)[k].id
  {
    assert forall i :: 0 <= i < k ==> b.clients[i].id > b.clients[k].id;
    assert forall i :: k < i < |b.clients| ==> b.clients[k].id > b.clients[i].id;
  }

  lemma CardsSay(b: Bus, op: Op, a: int)
    requires Ordered(b) && Caster(b, op).Some? && Caster(b, op).value.id != a
    ensures var who := Caster(b, op).value;
            Say(CardsAfter(b, op), {a}, who.nick, NewsOf(who)) <==>
            Say(Cards(b.clients), {a, who.id}, who.nick, NewsOf(who))
  {
    hide Say, Place, PartNotice, Appended;
    var cards := Cards(b.clients);
    match op
    case Join(nick) =>
      JoinSays(cards, CardOf(NewClient(b.nextId, nick)), a);
    case Leave(id) =>
      var k := Place(b.clients, id);
      IdsDiffer(b, k);
      LeaveSays(cards, k, a, b.clients[k].nick, NewsOf(Caster(b, op).value));
    case SetStatus(id, status) =>
      var k := Place(b.clients, id);
      IdsDiffer(b, k);
      StatusSays(cards, k, status, a);
    case _ =>
  }

  // Exactly when an announcement leaves a's roster right about a nick: the first entry under it
  // then agrees with every other client of that nick if and only if all those who already had the
  // nick, but for a and the one who announces, are as is now announced.
  lemma AnnouncementAgrees(b: Bus, op: Op, a: int)
    requires Ordered(b) && Present(b.clients, a) && op != Leave(a)
    requires Caster(b, op).Some? && Caster(b, op).value.id != a
    requires var r := TheClient(b.clients, a).roster;
             FirstNick(r, Caster(b, op).value.nick) < |r| || |r| < MAX_ROSTER
    ensures var who, after := Caster(b, op).value, Step(b, op).clients;
            && Present(after, a)
            && var r := TheClient(after, a).roster;
               var k := FirstNick(r, who.nick);
               && k < |r|
               && ((forall c :: c in after && c.nick == who.nick && c.id != a ==>
                      (r[k].status, r[k].text) == NewsOf(c)) <==>
                   (forall c :: c in b.clients && c.nick == who.nick && c.id != a && c.id != who.id ==>
                      NewsOf(c) == NewsOf(who)))
  {
    hide Heard, Ordered, Step, Effect, Caster, CardsAfter, Say, NewsOf, Cards;
    var who, after := Caster(b, op).value, Step(b, op).clients;
    StepCards(b, op);
    StepEffect(b, op, a);
    OldId(b, a);
    SameId(b.clients, a);
    CasterNick(b, op);
    EffectRoster(b, op, TheClient(b.clients, a));
    HeardShows(TheClient(b.clients, a).roster, who);
    CardsSay(b, op, a);
    ClientsSay(after, {a}, who.nick, NewsOf(who));
    ClientsSay(b.clients, {a, who.id}, who.nick, NewsOf(who));
  }

  // ----- a nick once listed stays listed

  predicate Lists(r: seq<RosterItem>, nick: string) { FirstNick(r, nick) < |r| }

  lemma HeardStillLists(r: seq<RosterItem>, who: Client, nick: string)
    requires Lists(r, nick)
    ensures Lists(Heard(r, who), nick)
  {
    var k := FirstNick(r, who.nick);
    if k < |r| {
      FirstNickUpdate(r, k, Heard(r, who)[k], nick);
    } else if |r| < MAX_ROSTER {
      FirstNickAppend(r, Heard(r, who)[|r|], nick);
    }
  }

  lemma EffectStillLists(b: Bus, op: Op, c: Client, nick: string)
    requires op != Leave(c.id) && c.id < b.nextId && Lists(c.roster, nick)
    ensures Lists(Effect(b, op, c).roster, nick)
  {
    hide Effect, Heard, Lists;
    EffectRoster(b, op, c);
    if Caster(b, op).Some? {
      HeardStillLists(c.roster, Caster(b, op).value, nick);
    } else if op.AddBuddy? && op.id == c.id && |c.roster| < MAX_ROSTER {
      AppendStillLists(c.roster, Buddy(op.jid, op.nick, op.group), nick);
    }
  }

  lemma AppendStillLists(r: seq<RosterItem>, x: RosterItem, nick: string)
    requires Lists(r, nick)
    ensures Lists(r + [x], nick)
  {
    FirstNickAppend(r, x, nick);
  }

  lemma {:induction false} StaysListed(b: Bus, ops: seq<Op>, a: int, nick: string)
    requires Ordered(b) && Present(b.clients, a) && Leave(a) !in ops
    requires Lists(TheClient(b.clients, a).roster, nick)
    ensures Present(Run(b, ops).clients, a)
    ensures Lists(TheClient(Run(b, ops).clients, a).roster, nick)
    decreases |ops|
  {
    hide Effect, Step, Lists;
    if ops != [] {
      var op := ops[0];
      assert op in ops && op != Leave(a);
      StepCards(b, op);
      StepEffect(b, op, a);
      OldId(b, a);
      SameId(b.clients, a);
      EffectStillLists(b, op, TheClient(b.clients, a), nick);
      StaysListed(Step(b, op), ops[1..], a, nick);
    }
  }

  // Whoever announces anything while a's roster has room, or lists them already, is listed from
  // then on: only a roster full of others at that moment leaves them out.
  lemma AnnouncedIsListed(b: Bus, op: Op, ops: seq<Op>, a: int)
    requires Ordered(b) && Present(b.clients, a) && Leave(a) != op && Leave(a) !in ops
    requires Caster(b, op).Some? && Caster(b, op).value.id != a
    requires var r := TheClient(b.clients, a).roster;
             Lists(r, Caster(b, op).value.nick) || |r| < MAX_ROSTER
    ensures var after := Run(Step(b, op), ops).clients;
            Present(after, a) && Lists(TheClient(after, a).roster, Caster(b, op).value.nick)
  {
    hide Heard, Ordered, Step, Effect, Caster;
    StepCards(b, op);
    StepEffect(b, op, a);
    OldId(b, a);
    SameId(b.clients, a);
    CasterNick(b, op);
    EffectRoster(b, op, TheClient(b.clients, a));
    HeardShows(TheClient(b.clients, a).roster, Caster(b, op).value);
    StaysListed(Step(b, op), ops, a, Caster(b, op).value.nick);
  }

  // ----- every run from the empty bus

  lemma FoundByCard(b: Bus, j: nat)
    requires Ordered(b) && j < |b.clients|
    ensures Present(b.clients, Cards(b.clients)[j].id)
    ensures CardOf(TheClient(b.clients, Cards(b.clients)[j].id)) == Cards(b.clients)[j]
  {
    hide Place;
    IdsDiffer(b, j);
    assert Cards(b.clients)[j].id == b.clients[j].id;
    assert forall i :: 0 <= i < |b.clients| ==> Cards(b.clients)[i].id == b.clients[i].id;
  }

  lemma JoinedCards(b: Bus, nick: string)
    requires Ordered(b) && |nick| <= 31
    ensures var after := Step(b, Join(nick));
            && Ordered(after) && after.nextId == b.nextId + 1
            && Cards(after.clients) == [Card(b.nextId, nick, ONLINE, STATUS_TEXT)] + Cards(b.clients)
  {
    hide Ordered, Cards;
    StepCards(b, Join(nick));
  }

  // The first client on an empty bus has only the default roster.
  lemma AloneOnTheBus(nick: string)
    ensures var cs := Step(EMPTY, Join(nick)).clients;
            Present(cs, 1) && |TheClient(cs, 1).roster| == 3
  {
    hide MakeEntry, Appended;
    var c := NewClient(1, nick);
    var cs := Step(EMPTY, Join(nick)).clients;
    assert cs[0] == Told(Hears(c, c), JoinNotice(c.nick));
    assert Place(cs, 1) == 0;
  }

  lemma RunOne(b: Bus, op: Op)
    ensures Run(b, [op]) == Step(b, op)
  {
    hide Step;
    assert [op][1..] == [];
  }

  lemma RunFirst(b: Bus, op: Op, ops: seq<Op>)
    ensures Run(b, [op] + ops) == Run(Step(b, op), ops)
  {
    hide Step;
    assert ([op] + ops)[1..] == ops;
  }

  lemma RunOfFour(b: Bus, p: Op, q: Op, r: Op, t: Op)
    ensures Run(b, [p, q, r, t]) == Step(Step(Step(Step(b, p), q), r), t)
  {
    hide Step, Run;
    assert [p, q, r, t] == [p] + ([q] + ([r] + [t]));
    RunFirst(b, p, [q] + ([r] + [t]));
    RunFirst(Step(b, p), q, [r] + [t]);
    RunFirst(Step(Step(b, p), q), r, [t]);
    RunOne(Step(Step(Step(b, p), q), r), t);
  }

  // Such a run: two clients called x join, one leaves, and the first client takes the other to be
  // offline.
  lemma SharedNickRun()
    ensures var after := Run(EMPTY, [Join("a"), Join("x"), Join("x"), Leave(2)]).clients;
            && Present(after, 1) && Present(after, 3)
            && TheClient(after, 3).nick == "x" && TheClient(after, 3).status != OFFLINE
            && var r := TheClient(after, 1).roster;
               var k := FirstNick(r, "x");
               k < |r| && r[k].status == OFFLINE
  {
    hide Step, Place, FirstNick, Ordered, Cards, Run;
    var b1 := Step(EMPTY, Join("a"));
    var b2 := Step(b1, Join("x"));
    var b3 := Step(b2, Join("x"));
    RunOfFour(EMPTY, Join("a"), Join("x"), Join("x"), Leave(2));
    RunOne(b2, Join("x"));
    ThreeJoins();
    AloneOnTheBus("a");
    AnnouncedIsListed(b1, Join("x"), [Join("x")], 1);
    SharedNickMisleads(b3, 1, 2, 3);
  }

  lemma ThreeJoins()
    ensures var b1 := Step(EMPTY, Join("a"));
            var b3 := Step(Step(b1, Join("x")), Join("x"));
            && Ordered(b1) && Ordered(b3) && b1.nextId == 2
            && Present(b3.clients, 1) && Present(b3.clients, 2) && Present(b3.clients, 3)
            && TheClient(b3.clients, 2).nick == "x" && TheClient(b3.clients, 3).nick == "x"
            && TheClient(b3.clients, 3).status == ONLINE
  {
    hide Step, Place, Cards;
    var b1 := Step(EMPTY, Join("a"));
    var b2 := Step(b1, Join("x"));
    var b3 := Step(b2, Join("x"));
    JoinedCards(EMPTY, "a");
    JoinedCards(b1, "x");
    JoinedCards(b2, "x");
    hide Ordered;
    assert Cards(b3.clients) == [Card(3, "x", ONLINE, STATUS_TEXT), Card(2, "x", ONLINE, STATUS_TEXT), Card(1, "a", ONLINE, STATUS_TEXT)];
    FoundByCard(b3, 0);
    FoundByCard(b3, 1);
    FoundByCard(b3, 2);
  }

  lemma StepSole(b: Bus, op: Op, nick: string)
    requires Sole(Cards(b.clients), nick)
    requires op.Join? && Trunc(op.nick, 31) == nick ==> Unused(b.clients, nick)
    ensures Sole(CardsAfter(b, op), nick)
  {
    hide Place;
    var cards, r := Cards(b.clients), CardsAfter(b, op);
    if op.Join? {
      assert forall i :: 0 <= i < |r| ==> r[i] == if i == 0 then CardOf(NewClient(b.nextId, op.nick)) else cards[i - 1];
    } else if op.Leave? && Present(b.clients, op.id) {
      var k := Place(b.clients, op.id);
      assert forall i :: 0 <= i < |r| ==> r[i] == if i < k then cards[i] else cards[i + 1];
    }
  }

  lemma {:induction false} RunSole(b: Bus, ops: seq<Op>, nick: string)
    requires Ordered(b) && Sole(Cards(b.clients), nick) && FreshFor(b, ops, nick)
    ensures Sole(Cards(Run(b, ops).clients), nick)
    decreases |ops|
  {
    hide Ordered, Sole, Step, Unused;
    if ops != [] {
      StepCards(b, ops[0]);
      StepSole(b, ops[0], nick);
      RunSole(Step(b, ops[0]), ops[1..], nick);
    }
  }

  lemma {:induction false} RunInTwo(b: Bus, before: seq<Op>, ops: seq<Op>, nick: string)
    ensures Run(b, before + ops) == Run(Run(b, before), ops)
    ensures FreshFor(b, before + ops, nick) <==> FreshFor(b, before, nick) && FreshFor(Run(b, before), ops, nick)
    decreases |before|
  {
    hide Step, Unused;
    if before == [] {
      assert before + ops == ops;
    } else {
      assert (before + ops)[1..] == before[1..] + ops;
      RunInTwo(Step(b, before[0]), before[1..], ops, nick);
    }
  }

  // In every run from the start in which nobody joins under the nick while it is in use, a's
  // roster agrees with whatever was announced under it while a was registered.
  lemma RosterAgreementInEveryRun(before: seq<Op>, ops: seq<Op>, a: int, nick: string)
    requires FreshFor(EMPTY, before + ops, nick)
    requires Present(Run(EMPTY, before).clients, a) && Leave(a) !in ops
    requires nick in NewsOver(Run(EMPTY, before), ops, a, map[])
    ensures var after := Run(EMPTY, before + ops).clients;
            && Present(after, a)
            && var r := TheClient(after, a).roster;
               var k := FirstNick(r, nick);
               if k < |r| then
                 && (forall c :: c in after && c.nick == nick ==>
                       r[k].status == c.status && r[k].text == Trunc(c.statusText, 63))
                 && ((forall c :: c in after ==> c.nick != nick) ==> r[k].status == OFFLINE)
               else |r| >= MAX_ROSTER
  {
    hide Run, NewsOver, FreshFor;
    RunInTwo(EMPTY, before, ops, nick);
    RunIsOrdered(EMPTY, before);
    RunSole(EMPTY, before, nick);
    RosterAgreement(Run(EMPTY, before), ops, a, nick);
  }
}
