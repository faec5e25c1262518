/** What the operations of the bus leave behind: the fields of transcript entries, of new clients and
    of roster entries. */
module ChatEntries {
  import opened CStrings
  import opened Sequences
  import opened ChatModel
  import opened ChatRuns
  import opened ChatRosters

  // ----- transcripts

  predicate Is(e: Entry, sender: string, text: string, kind: Kind)
  {
    e.sender == sender && e.text == text && e.kind == kind
  }

  // The end of a transcript to which one entry, or two, have been added.
  lemma ToldLast(c: Client, e: Entry)
    requires c.room.Some?
    ensures var r := Told(c, e).room; r.Some? && r.value != [] && r.value[|r.value| - 1] == e
  {
  }

  lemma ToldTwice(c: Client, e: Entry, f: Entry)
    requires c.room.Some?
    ensures var r := Told(Told(c, e), f).room;
            r.Some? && |r.value| >= 2 && r.value[|r.value| - 2] == e && r.value[|r.value| - 1] == f
  {
    ToldLast(c, e);
    var h := Told(c, e).room.value;
    assert Appended(h, f)[|Appended(h, f)| - 2] == h[|h| - 1];
  }

  // Everyone with the room open is told, by the system, who has come ...
  lemma JoinIsTold(b: Bus, nick: string, c: int)
    requires Ordered(b) && Present(b.clients, c) && TheClient(b.clients, c).room.Some?
    ensures var after := Step(b, Join(nick)).clients;
            && Present(after, c) && TheClient(after, c).room.Some?
            && var h := TheClient(after, c).room.value;
               h != [] && Is(h[|h| - 1], "System", "--> " + Trunc(nick, 31) + " has entered the room.", SYSTEM)
  {
    hide Step, Place, Told, Hears, Ordered;
    StepEffect(b, Join(nick), c);
    var n := NewClient(b.nextId, nick);
    HearsRoom(TheClient(b.clients, c), n);
    ToldLast(Hears(TheClient(b.clients, c), n), JoinNotice(n.nick));
    JoinNoticeIs(n.nick);
  }

  lemma HearsRoom(c: Client, who: Client)
    ensures Hears(c, who).room == c.room
  {
  }

  lemma JoinNoticeIs(nick: string)
    requires |nick| <= 31
    ensures Is(JoinNotice(nick), "System", "--> " + nick + " has entered the room.", SYSTEM)
  {
  }

  lemma PartNoticeIs(nick: string)
    requires |nick| <= 31
    ensures Is(PartNotice(nick), "System", "<-- " + nick + " has left the room.", SYSTEM)
  {
  }

  // ... and who has left.
  lemma LeaveIsTold(b: Bus, id: int, c: int)
    requires Ordered(b) && Present(b.clients, id) && id != c
    requires Present(b.clients, c) && TheClient(b.clients, c).room.Some?
    ensures var after := Step(b, Leave(id)).clients;
            && Present(after, c) && TheClient(after, c).room.Some?
            && var h := TheClient(after, c).room.value;
               h != [] && Is(h[|h| - 1], "System", "<-- " + TheClient(b.clients, id).nick + " has left the room.", SYSTEM)
  {
    hide Step, Place, Told, Effect, Ordered, Is;
    StepEffect(b, Leave(id), c);
    var who := TheClient(b.clients, id);
    NickFits(b, id);
    LeaveRoom(b, id, TheClient(b.clients, c));
    ToldLast(TheClient(b.clients, c), PartNotice(who.nick));
    PartNoticeIs(who.nick);
  }

  lemma LeaveRoom(b: Bus, id: int, c: Client)
    requires Present(b.clients, id)
    ensures Effect(b, Leave(id), c).room == Told(c, PartNotice(TheClient(b.clients, id).nick)).room
  {
    hide Told, PartNotice, Place, Heard;
  }

  lemma NickFits(b: Bus, id: int)
    requires Ordered(b) && Present(b.clients, id)
    ensures |TheClient(b.clients, id).nick| <= 31
  {
  }

  predicate Mentions(text: string, word: string)
  {
    exists i :: 0 <= i <= |text| && word <= text[i..]
  }

  lemma ContainsMentions(text: string, word: string)
    ensures Contains(text, word) <==> Mentions(text, word)
  {
    hide Find;
    var k := Find(text, word);
    if k >= 0 {
      assert word <= text[k..];
    }
  }

  predicate Greets(text: string)
  {
    Mentions(text, "hello") || Mentions(text, "Hello") || Mentions(text, "hi") || Mentions(text, "Hi")
  }

  // A message reaches everyone with the room open under the speaker's nick; the bot answers it when
  // it mentions the specification, or else when it greets, and not otherwise.
  lemma SayIsTold(b: Bus, id: int, text: string, c: int)
    requires Ordered(b) && Present(b.clients, id) && text != ""
    requires Present(b.clients, c) && TheClient(b.clients, c).room.Some?
    ensures var after := Step(b, Say(id, text)).clients;
            var nick := TheClient(b.clients, id).nick;
            && Present(after, c) && TheClient(after, c).room.Some?
            && var h := TheClient(after, c).room.value;
               if Mentions(text, "spec") || Greets(text) then
                 && |h| >= 2
                 && Is(h[|h| - 2], nick, Trunc(text, 255), GROUPCHAT)
                 && Is(h[|h| - 1], "Sakamura-Sensei",
                       if Mentions(text, "spec") then "Conforming strictly to BTRON3 SPEC 3.20 & TRON HMI guidelines!"
                       else "Greetings @" + nick + "! Welcome to the B-System Chat Network.", GROUPCHAT)
               else h != [] && Is(h[|h| - 1], nick, Trunc(text, 255), GROUPCHAT)
  {
    hide Step, Place, Told, Spoken, BotReply, MakeEntry, TellAll, Mentions, Is, Contains, Effect, Ordered;
    var me, nick := TheClient(b.clients, c), TheClient(b.clients, id).nick;
    StepEffect(b, Say(id, text), c);
    NickFits(b, id);
    SayRoom(b, id, text, me);
    TellSpoken(me, nick, text);
    var e := MakeEntry(nick, text, GROUPCHAT);
    MessageIs(nick, text);
    BotSays(nick, text);
    if BotReply(nick, text).Some? {
      ToldTwice(me, e, BotReply(nick, text).value);
    } else {
      ToldLast(me, e);
    }
  }

  lemma SayRoom(b: Bus, id: int, text: string, c: Client)
    requires Present(b.clients, id) && text != ""
    ensures Effect(b, Say(id, text), c) == TellAll(c, Spoken(TheClient(b.clients, id).nick, text))
  {
    hide Spoken, TellAll, Place;
  }

  lemma MessageIs(nick: string, text: string)
    requires |nick| <= 31
    ensures Is(MakeEntry(nick, text, GROUPCHAT), nick, Trunc(text, 255), GROUPCHAT)
  {
  }

  lemma BotSays(nick: string, text: string)
    requires |nick| <= 31
    ensures var r := BotReply(nick, text);
            if Mentions(text, "spec") then
              r.Some? && Is(r.value, "Sakamura-Sensei", "Conforming strictly to BTRON3 SPEC 3.20 & TRON HMI guidelines!", GROUPCHAT)
            else if Greets(text) then
              r.Some? && Is(r.value, "Sakamura-Sensei", "Greetings @" + nick + "! Welcome to the B-System Chat Network.", GROUPCHAT)
            else r.None?
  {
    hide Contains, Mentions;
    ContainsMentions(text, "spec");
    ContainsMentions(text, "hello");
    ContainsMentions(text, "Hello");
    ContainsMentions(text, "hi");
    ContainsMentions(text, "Hi");
    FitsAll(nick);
  }

  lemma FitsAll(nick: string)
    requires |nick| <= 31
    ensures var s := "Conforming strictly to BTRON3 SPEC 3.20 & TRON HMI guidelines!"; Trunc(Trunc(s, 127), 255) == s
    ensures var s := "Greetings @" + nick + "! Welcome to the B-System Chat Network."; Trunc(Trunc(s, 127), 255) == s
    ensures Trunc("Sakamura-Sensei", 31) == "Sakamura-Sensei"
  {
  }

  // An opened room holds the greeting alone.
  lemma RoomOpensWithGreeting(b: Bus, id: int)
    requires Ordered(b) && Present(b.clients, id) && TheClient(b.clients, id).room.None?
    ensures var after := Step(b, OpenRoom(id)).clients;
            && Present(after, id) && TheClient(after, id).room.Some?
            && var h := TheClient(after, id).room.value;
               |h| == 1 && Is(h[0], "System", "Welcome to B-System 3.20 BeOS Chatroom (#btron-hall)!", SYSTEM)
  {
    hide Step, Place;
    StepEffect(b, OpenRoom(id), id);
    SameId(b.clients, id);
  }

  // ----- new clients

  // Who joins comes first in the list, online, under an address on the server, without a room and
  // with three buddies in its roster.
  lemma JoinedClient(b: Bus, nick: string)
    ensures var cs := Step(b, Join(nick)).clients;
            && cs != []
            && var c := cs[0];
               && c.id == b.nextId && c.nick == Trunc(nick, 31) && c.jid == c.nick + "@btron.org"
               && c.status == ONLINE && c.statusText == "Online in B-System 3.20" && c.room.None?
               && |c.roster| == 3
               && c.roster[0].jid == "Sakamura-Sensei@btron.org" && c.roster[0].nick == "Sakamura-Sensei" && c.roster[0].group == "Developers"
               && c.roster[1].jid == "Tron-Daemon@btron.org" && c.roster[1].nick == "Tron-Daemon" && c.roster[1].group == "General"
               && c.roster[2].jid == "#btron-hall@conference.btron.org" && c.roster[2].nick == "#btron-hall" && c.roster[2].group == "MUC Rooms"
               && forall i :: 0 <= i < 3 ==> c.roster[i].status == ONLINE
  {
    hide JoinNotice;
    var c := NewClient(b.nextId, nick);
    assert Step(b, Join(nick)).clients[0] == Told(Hears(c, c), JoinNotice(c.nick));
    hide Step;
  }

  // A buddy is added with the defaults for what is left empty.
  lemma BuddyIsListed(b: Bus, id: int, jid: string, nick: string, group: string)
    requires Ordered(b) && Present(b.clients, id) && |TheClient(b.clients, id).roster| < 32
    ensures var after := Step(b, AddBuddy(id, jid, nick, group)).clients;
            && Present(after, id)
            && var r, was := TheClient(after, id).roster, TheClient(b.clients, id).roster;
               && |r| == |was| + 1 && r[..|was|] == was
               && var x := r[|was|];
                  && x.jid == Trunc(if jid == "" then "newuser@btron.org" else jid, 63)
                  && x.nick == Trunc(if nick == "" then "NewBuddy" else nick, 31)
                  && x.group == Trunc(if group == "" then "General" else group, 31)
                  && x.status == ONLINE && x.text == "Added to Roster"
  {
    hide Step, Place, Trunc;
    StepEffect(b, AddBuddy(id, jid, nick, group), id);
    SameId(b.clients, id);
  }

  // ----- rosters

  // Who an entry is for.
  datatype Name = Name(jid: string, nick: string, group: string)

  function Names(r: seq<RosterItem>): (n: seq<Name>)
    ensures |n| == |r|
    ensures forall i :: 0 <= i < |r| ==> n[i] == Name(r[i].jid, r[i].nick, r[i].group)
  {
    seq(|r|, i requires 0 <= i < |r| => Name(r[i].jid, r[i].nick, r[i].group))
  }

  // An announcement under a nick that is listed changes status and text of the first entry under
  // it, and nothing else in the roster.
  lemma HeardKnown(r: seq<RosterItem>, who: Client)
    requires Lists(r, who.nick)
    ensures var r', k := Heard(r, who), FirstNick(r, who.nick);
            && |r'| == |r| && Names(r') == Names(r)
            && r'[k].status == who.status && r'[k].text == Trunc(who.statusText, 63)
            && forall i :: 0 <= i < |r| && i != k ==> r'[i] == r[i]
  {
  }

  // Under one that is not, it adds an entry with the announcer's address in the general group, when
  // there is room, and changes none.
  lemma HeardNew(r: seq<RosterItem>, who: Client)
    requires !Lists(r, who.nick) && |who.nick| <= 31
    ensures |r| >= 32 ==> Heard(r, who) == r
    ensures |r| < 32 ==>
      var r' := Heard(r, who);
      && |r'| == |r| + 1 && r'[..|r|] == r && FirstNick(r', who.nick) == |r|
      && r'[|r|].jid == Trunc(who.jid, 63) && r'[|r|].nick == who.nick && r'[|r|].group == "General"
      && r'[|r|].status == who.status && r'[|r|].text == Trunc(who.statusText, 63)
  {
    if |r| < 32 {
      FirstNickAppend(r, Heard(r, who)[|r|], who.nick);
    }
  }

  lemma HeardKeepsNames(r: seq<RosterItem>, who: Client)
    requires |who.nick| <= 31
    ensures Names(r) <= Names(Heard(r, who))
  {
    hide Heard;
    if Lists(r, who.nick) {
      HeardKnown(r, who);
    } else {
      HeardNew(r, who);
      if |r| < 32 {
        NamesPrefix(r, Heard(r, who));
      }
    }
  }

  lemma NamesPrefix(r: seq<RosterItem>, s: seq<RosterItem>)
    requires |r| <= |s| && s[..|r|] == r
    ensures Names(r) <= Names(s)
  {
    assert forall i :: 0 <= i < |r| ==> s[i] == s[..|r|][i];
  }

  lemma EffectKeepsNames(b: Bus, op: Op, c: Client)
    requires Ordered(b) && op != Leave(c.id) && c.id < b.nextId
    ensures Names(c.roster) <= Names(Effect(b, op, c).roster)
  {
    hide Effect, Heard, Ordered, Names;
    EffectRoster(b, op, c);
    CasterNick(b, op);
    if Caster(b, op).Some? {
      HeardKeepsNames(c.roster, Caster(b, op).value);
    } else if op.AddBuddy? && op.id == c.id && |c.roster| < MAX_ROSTER {
      NamesPrefix(c.roster, c.roster + [Buddy(op.jid, op.nick, op.group)]);
    }
  }

  // Over a run no entry of a roster changes its address, its nick, its group or its place.
  lemma {:induction false} NamesOverRun(b: Bus, ops: seq<Op>, a: int)
    requires Ordered(b) && Present(b.clients, a) && Leave(a) !in ops
    ensures Present(Run(b, ops).clients, a)
    ensures Names(TheClient(b.clients, a).roster) <= Names(TheClient(Run(b, ops).clients, a).roster)
    decreases |ops|
  {
    hide Effect, Step, Names, Ordered;
    if ops != [] {
      var op := ops[0];
      assert op in ops && op != Leave(a);
      StepCards(b, op);
      StepEffect(b, op, a);
      OldId(b, a);
      SameId(b.clients, a);
      EffectKeepsNames(b, op, TheClient(b.clients, a));
      NamesOverRun(Step(b, op), ops[1..], a);
    }
  }

  // Who is first announced to a while its roster has room is, ever after, first listed in the place
  // then free, with the announcer's address and in the general group.
  lemma ListedAddress(b: Bus, op: Op, ops: seq<Op>, a: int)
    requires Ordered(b) && Present(b.clients, a) && Leave(a) != op && Leave(a) !in ops
    requires Caster(b, op).Some? && Caster(b, op).value.id != a
    requires var r := TheClient(b.clients, a).roster; !Lists(r, Caster(b, op).value.nick) && |r| < 32
    ensures var who, n := Caster(b, op).value, |TheClient(b.clients, a).roster|;
            var after := Run(Step(b, op), ops).clients;
            && Present(after, a)
            && var r := TheClient(after, a).roster;
               && n < |r| && FirstNick(r, who.nick) == n
               && r[n].jid == Trunc(who.jid, 63) && r[n].nick == who.nick && r[n].group == "General"
  {
    hide Heard, Ordered, Step, Effect, Caster, Run, FirstNick, Names;
    var who, was := Caster(b, op).value, TheClient(b.clients, a).roster;
    StepCards(b, op);
    StepEffect(b, op, a);
    OldId(b, a);
    SameId(b.clients, a);
    CasterNick(b, op);
    EffectRoster(b, op, TheClient(b.clients, a));
    HeardNew(was, who);
    NamesOverRun(Step(b, op), ops, a);
    FirstStays(TheClient(Step(b, op).clients, a).roster, TheClient(Run(Step(b, op), ops).clients, a).roster, who.nick);
  }

  lemma FirstStays(r: seq<RosterItem>, s: seq<RosterItem>, nick: string)
    requires Names(r) <= Names(s) && Lists(r, nick)
    ensures var k := FirstNick(r, nick);
            && k < |s| && FirstNick(s, nick) == k
            && s[k].jid == r[k].jid && s[k].nick == r[k].nick && s[k].group == r[k].group
  {
    var k := FirstNick(r, nick);
    assert forall i :: 0 <= i < |r| ==> Names(s)[i] == Names(r)[i];
    FirstNickIs(s, nick, k);
  }

  // A client that joins where nobody of its nick is listed is so listed under its own address.
  lemma JoinedAddress(b: Bus, nick: string, ops: seq<Op>, a: int)
    requires Ordered(b) && Present(b.clients, a) && Leave(a) !in ops
    requires var r := TheClient(b.clients, a).roster; !Lists(r, Trunc(nick, 31)) && |r| < 32
    ensures var after := Run(Step(b, Join(nick)), ops).clients;
            && Present(after, a)
            && var r := TheClient(after, a).roster;
               var k := FirstNick(r, Trunc(nick, 31));
               k < |r| && r[k].jid == Trunc(nick, 31) + "@btron.org" && r[k].group == "General"
  {
    hide Step, Run, FirstNick, Place, DefaultRoster;
    OldId(b, a);
    hide Ordered;
    ListedAddress(b, Join(nick), ops, a);
    AddressIs(b.nextId, nick);
  }

  lemma AddressIs(id: int, nick: string)
    ensures var c := NewClient(id, nick); c.jid == Trunc(nick, 31) + "@btron.org" && Trunc(c.jid, 63) == c.jid
  {
  }
}
