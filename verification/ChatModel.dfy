/** The chat bus as a state machine: registered clients, what each has cached of the others, and
    the room transcripts, over whole runs of operations. */
module ChatModel {
  import opened CStrings
  import opened Sequences

  const MAX_ROSTER := 32
  const MAX_HISTORY := 64

  datatype Status = OFFLINE | ONLINE | AWAY | DND

  datatype Kind = CHAT | GROUPCHAT | SYSTEM | TOPIC

  // A transcript entry, without its time stamp and colour.
  datatype Entry = Entry(sender: string, text: string, kind: Kind)

  datatype RosterItem = RosterItem(jid: string, nick: string, group: string, status: Status, text: string)

  datatype Client = Client(id: int, nick: string, jid: string, status: Status, statusText: string,
                           roster: seq<RosterItem>, room: Option<seq<Entry>>)

  // The client list, newest first.
  datatype Bus = Bus(clients: seq<Client>, nextId: int)

  const SERVER := "btron.org"
  const STATUS_TEXT := "Online in B-System 3.20"

  function DefaultRoster(): seq<RosterItem>
  {
    [RosterItem("Sakamura-Sensei@btron.org", "Sakamura-Sensei", "Developers", ONLINE, "Designing TRON 3.20 HMI"),
     RosterItem("Tron-Daemon@btron.org", "Tron-Daemon", "General", ONLINE, "TRON IPC Kernel Service"),
     RosterItem("#btron-hall@conference.btron.org", "#btron-hall", "MUC Rooms", ONLINE, "B-System Public Townhall")]
  }

  // ----- transcripts

  function MakeEntry(sender: string, text: string, kind: Kind): Entry
  {
    Entry(Trunc(sender, 31), Trunc(text, 255), kind)
  }

  function Appended(history: seq<Entry>, e: Entry): seq<Entry>
  {
    Last(history + [e], MAX_HISTORY)
  }

  function Told(c: Client, e: Entry): Client
  {
    if c.room.Some? then c.(room := Some(Appended(c.room.value, e))) else c
  }

  function Announce(cs: seq<Client>, e: Entry): (r: seq<Client>)
    ensures |r| == |cs|
    ensures forall i :: 0 <= i < |cs| ==> r[i] == Told(cs[i], e)
  {
    seq(|cs|, i requires 0 <= i < |cs| => Told(cs[i], e))
  }

  // ----- rosters

  // The first entry under a nick, or |r|.
  function FirstNick(r: seq<RosterItem>, nick: string): (k: nat)
    ensures k <= |r|
    ensures k < |r| ==> r[k].nick == nick
    ensures forall i :: 0 <= i < k ==> r[i].nick != nick
  {
    if r == [] || r[0].nick == nick then 0 else 1 + FirstNick(r[1..], nick)
  }

  function Heard(r: seq<RosterItem>, who: Client): seq<RosterItem>
  {
    var k := FirstNick(r, who.nick);
    if k < |r| then r[k := r[k].(status := who.status, text := Trunc(who.statusText, 63))]
    else if |r| < MAX_ROSTER then
      r + [RosterItem(Trunc(who.jid, 63), Trunc(who.nick, 31), "General", who.status, Trunc(who.statusText, 63))]
    else r
  }

  function Hears(c: Client, who: Client): Client
  {
    if c.id == who.id then c else c.(roster := Heard(c.roster, who))
  }

  function Broadcast(cs: seq<Client>, who: Client): (r: seq<Client>)
    ensures |r| == |cs|
    ensures forall i :: 0 <= i < |cs| ==> r[i] == Hears(cs[i], who)
  {
    seq(|cs|, i requires 0 <= i < |cs| => Hears(cs[i], who))
  }

  // ----- operations

  datatype Op =
    | Join(nick: string)
    | Leave(id: int)
    | SetStatus(id: int, status: Status)
    | Say(id: int, text: string)
    | OpenRoom(id: int)
    | AddBuddy(id: int, jid: string, nick: string, group: string)

  // Where the client with this id is in the list, or |cs|.
  function Place(cs: seq<Client>, id: int): (k: nat)
    ensures k <= |cs|
    ensures k < |cs| ==> cs[k].id == id
    ensures forall i :: 0 <= i < k ==> cs[i].id != id
  {
    if cs == [] || cs[0].id == id then 0 else 1 + Place(cs[1..], id)
  }

  predicate Present(cs: seq<Client>, id: int) { Place(cs, id) < |cs| }

  function TheClient(cs: seq<Client>, id: int): Client
    requires Present(cs, id)
  {
    cs[Place(cs, id)]
  }

  function NewClient(id: int, preferred: string): Client
  {
    var nick := Trunc(preferred, 31);
    Client(id, nick, Trunc(nick + "@" + SERVER, 63), ONLINE, STATUS_TEXT, DefaultRoster(), None)
  }

  function JoinNotice(nick: string): Entry
  {
    MakeEntry("System", Trunc("--> " + nick + " has entered the room.", 127), SYSTEM)
  }

  function PartNotice(nick: string): Entry
  {
    MakeEntry("System", Trunc("<-- " + nick + " has left the room.", 127), SYSTEM)
  }

  function Welcome(): Entry
  {
    MakeEntry("System", "Welcome to B-System 3.20 BeOS Chatroom (#btron-hall)!", SYSTEM)
  }

  predicate Contains(text: string, word: string) { Find(text, word) >= 0 }

  // What the room's bot answers to a message.
  function BotReply(nick: string, text: string): Option<Entry>
  {
    if Contains(text, "spec") then
      Some(MakeEntry("Sakamura-Sensei",
                     Trunc("Conforming strictly to BTRON3 SPEC 3.20 & TRON HMI guidelines!", 127), GROUPCHAT))
    else if Contains(text, "hello") || Contains(text, "Hello") || Contains(text, "hi") || Contains(text, "Hi") then
      Some(MakeEntry("Sakamura-Sensei",
                     Trunc("Greetings @" + nick + "! Welcome to the B-System Chat Network.", 127), GROUPCHAT))
    else None
  }

  function SaidBy(cs: seq<Client>, nick: string, text: string): seq<Client>
  {
    var said := Announce(cs, MakeEntry(nick, text, GROUPCHAT));
    match BotReply(nick, text)
    case None => said
    case Some(e) => Announce(said, e)
  }

  // Operations on a client that is not registered do nothing.
  function Step(b: Bus, op: Op): Bus
  {
    var cs := b.clients;
    match op
    case Join(nick) =>
      var c := NewClient(b.nextId, nick);
      Bus(Announce(Broadcast([c] + cs, c), JoinNotice(c.nick)), b.nextId + 1)
    case Leave(id) =>
      if !Present(cs, id) then b
      else
        var k := Place(cs, id);
        var told := Announce(cs, PartNotice(cs[k].nick));
        var gone := told[k].(status := OFFLINE);
        var heard := Broadcast(told[k := gone], gone);
        b.(clients := heard[..k] + heard[k + 1..])
    case SetStatus(id, status) =>
      if !Present(cs, id) then b
      else
        var k := Place(cs, id);
        var c := cs[k].(status := status);
        b.(clients := Broadcast(cs[k := c], c))
    case Say(id, text) =>
      if !Present(cs, id) || text == "" then b
      else b.(clients := SaidBy(cs, TheClient(cs, id).nick, text))
    case OpenRoom(id) =>
      if !Present(cs, id) || TheClient(cs, id).room.Some? then b
      else
        var k := Place(cs, id);
        b.(clients := cs[k := cs[k].(room := Some([Welcome()]))])
    case AddBuddy(id, jid, nick, group) =>
      if !Present(cs, id) || |TheClient(cs, id).roster| >= MAX_ROSTER then b
      else
        var k := Place(cs, id);
        b.(clients := cs[k := cs[k].(roster := cs[k].roster + [Buddy(jid, nick, group)])])
  }

  function Buddy(jid: string, nick: string, group: string): RosterItem
  {
    RosterItem(Trunc(if jid == "" then "newuser@btron.org" else jid, 63),
               Trunc(if nick == "" then "NewBuddy" else nick, 31),
               Trunc(if group == "" then "General" else group, 31), ONLINE, "Added to Roster")
  }

  function Run(b: Bus, ops: seq<Op>): Bus
    decreases |ops|
  {
    if ops == [] then b else Run(Step(b, ops[0]), ops[1..])
  }

  const EMPTY := Bus([], 1)
}
