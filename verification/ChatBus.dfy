/** The chat bus in memory: a linked list of clients, a roster in each, and room windows whose
    history buffers shift when they are full. */
module ChatBus {
  import opened CStrings
  import opened ChatModel
  import opened NickNames

  lemma AppendedHolds(was: seq<Entry>, sender: string, text: string, kind: Kind)
    requires |was| <= 64
    ensures var e := MakeEntry(sender, text, kind);
            && Appended(was, e) == (if |was| < 64 then was else was[1..]) + [e]
            && e.sender == Trunc(sender, 31) && e.text == Trunc(text, 255) && e.kind == kind
  {
  }

  class ChatWindow {
    const history: array<Entry>
    var count: nat

    ghost predicate Valid()
      reads this
    {
      history.Length == MAX_HISTORY && count <= MAX_HISTORY
    }

    ghost function Transcript(): seq<Entry>
      requires Valid()
      reads this, history
    {
      history[..count]
    }

    constructor ()
      ensures Valid() && fresh(history) && Transcript() == []
    {
      history := new Entry[MAX_HISTORY](_ => Entry("", "", CHAT));
      count := 0;
    }

    // Drops the oldest entry when the history is full.
    method MakeRoom()
      requires Valid()
      modifies this, history
      ensures Valid() && count < MAX_HISTORY
      ensures Transcript() == if |old(Transcript())| < MAX_HISTORY then old(Transcript()) else old(Transcript())[1..]
    {
      if count >= MAX_HISTORY {
        for i := 0 to MAX_HISTORY - 1
          modifies history
          invariant forall k :: 0 <= k < i ==> history[k] == old(history[k + 1])
          invariant forall k :: i <= k < MAX_HISTORY ==> history[k] == old(history[k])
        {
          history[i] := history[i + 1];
        }
        count := MAX_HISTORY - 1;
        assert history[..count] == old(history[..])[1..];
      }
    }

    // append_message_to_wnd
    method Append(sender: string, text: string, kind: Kind)
      requires Valid()
      modifies this, history
      ensures Valid() && Transcript() == Appended(old(Transcript()), MakeEntry(sender, text, kind))
      ensures var t, was := Transcript(), old(Transcript());
              && t != [] && t[..|t| - 1] == (if |was| < 64 then was else was[1..])
              && t[|t| - 1].sender == Trunc(sender, 31)
              && t[|t| - 1].text == Trunc(text, 255)
              && t[|t| - 1].kind == kind
    {
      hide Appended, MakeEntry, Trunc;
      AppendedHolds(Transcript(), sender, text, kind);
      MakeRoom();
      ghost var kept := Transcript();
      history[count] := MakeEntry(sender, text, kind);
      count := count + 1;
      assert history[..count - 1] == kept;
      assert Transcript() == kept + [MakeEntry(sender, text, kind)];
    }
  }

  class ChatClient {
    const id: int
    const nick: string
    const jid: string
    const statusText: string
    var status: Status
    var connected: bool
    var roster: seq<RosterItem>
    var room: ChatWindow?
    var next: ChatClient?

    // Everything the others can come to know of this client, and all it has cached.
    ghost predicate Shows(v: Client)
      reads `status, `roster, `room, room, if room == null then {} else {room.history}
    {
      && v.id == id && v.nick == nick && v.jid == jid && v.statusText == statusText
      && v.status == status && v.roster == roster
      && (if room == null then v.room == None
          else room.Valid() && v.room == Some(room.Transcript()))
    }

    constructor (id: int, preferred: string)
      ensures Shows(NewClient(id, preferred))
      ensures this.id == id && room == null && next == null
    {
      this.id := id;
      nick := Trunc(preferred, 31);
      jid := Trunc(Trunc(preferred, 31) + "@" + SERVER, 63);
      statusText := STATUS_TEXT;
      status := ONLINE;
      connected := true;
      roster := DefaultRoster();
      room := null;
      next := null;
    }

    // Find or add the sender of a presence broadcast.
    method Hear(who: ChatClient, ghost v: Client)
      requires who.Shows(v) && who != this
      modifies `roster
      ensures roster == Heard(old(roster), v)
    {
      var i := 0;
      while i < |roster|
        invariant roster == old(roster)
        invariant i <= |roster| && forall k :: 0 <= k < i ==> roster[k].nick != who.nick
      {
        if roster[i].nick == who.nick {
          assert FirstNick(roster, who.nick) == i;
          roster := roster[i := roster[i].(status := who.status, text := Trunc(who.statusText, 63))];
          return;
        }
        i := i + 1;
      }
      if |roster| < MAX_ROSTER {
        roster := roster + [RosterItem(Trunc(who.jid, 63), Trunc(who.nick, 31), "General", who.status, Trunc(who.statusText, 63))];
      }
    }
  }

  ghost function At(list: seq<ChatClient>, i: nat): ChatClient?
    requires i <= |list|
  {
    if i < |list| then list[i] else null
  }

  // head and next spell the list.
  ghost predicate IsList(head: ChatClient?, list: seq<ChatClient>)
    reads list`next
  {
    && head == At(list, 0)
    && forall i :: 0 <= i < |list| ==> list[i].next == At(list, i + 1)
  }

  // No two clients share a window or a buffer, and all are accounted for.
  ghost predicate OwnRooms(list: seq<ChatClient>, rooms: set<ChatWindow>, buffers: set<array<Entry>>)
    reads list`room
  {
    && (forall i, j :: 0 <= i < j < |list| && list[i].room != null && list[j].room != null ==>
          list[i].room != list[j].room && list[i].room.history != list[j].room.history)
    && (forall i :: 0 <= i < |list| && list[i].room != null ==>
          list[i].room in rooms && list[i].room.history in buffers)
  }

  ghost predicate Descending(list: seq<ChatClient>, nextId: int)
  {
    && (forall i, j :: 0 <= i < j < |list| ==> list[i].id > list[j].id)
    && (forall i :: 0 <= i < |list| ==> list[i].id < nextId)
  }

  ghost predicate AllShow(list: seq<ChatClient>, views: seq<Client>, rooms: set<ChatWindow>, buffers: set<array<Entry>>)
    reads list`room, list`status, list`roster, rooms, buffers
    requires OwnRooms(list, rooms, buffers) && |views| == |list|
  {
    forall i :: 0 <= i < |list| ==> list[i].Shows(views[i])
  }

  function Without<T>(s: seq<T>, j: nat): (r: seq<T>)
    requires j < |s|
    ensures |r| == |s| - 1
  {
    s[..j] + s[j + 1..]
  }

  lemma WithoutAt<T>(s: seq<T>, j: nat)
    requires j < |s|
    ensures forall i :: 0 <= i < |s| - 1 ==> Without(s, j)[i] == if i < j then s[i] else s[i + 1]
  {
    var r := Without(s, j);
    assert r == s[..j] + s[j + 1..];
    forall i | 0 <= i < |s| - 1
      ensures r[i] == if i < j then s[i] else s[i + 1]
    {
    }
  }

  class Broker {
    var head: ChatClient?
    var nextId: int
    // The list that head and next spell, what its clients show, and their windows and buffers.
    ghost var list: seq<ChatClient>
    ghost var views: seq<Client>
    ghost var rooms: set<ChatWindow>
    ghost var buffers: set<array<Entry>>

    ghost predicate Linked()
      reads `head, `list, list`next
    {
      IsList(head, list)
    }

    ghost predicate Owned()
      reads `list, `rooms, `buffers, list`room
    {
      OwnRooms(list, rooms, buffers)
    }

    ghost predicate Numbered()
      reads `list, `nextId
    {
      Descending(list, nextId)
    }

    ghost predicate Shown()
      reads `list, `views, `rooms, `buffers, list`room, list`status, list`roster, rooms, buffers
      requires Owned() && |views| == |list|
    {
      AllShow(list, views, rooms, buffers)
    }

    ghost predicate Valid()
      reads this, list`next, list`room, list`status, list`roster, rooms, buffers
    {
      Linked() && Numbered() && Owned() && |views| == |list| && Shown()
    }

    ghost function State(): Bus
      reads `views, `nextId
    {
      Bus(views, nextId)
    }

    constructor ()
      ensures Valid() && State() == EMPTY
    {
      head := null;
      nextId := 1;
      list, views, rooms, buffers := [], [], {}, {};
    }

    // One message to one client, if its room is open.
    method Tell(c: ChatClient, sender: string, text: string, kind: Kind, ghost i: nat)
      requires Owned() && Numbered() && |views| == |list| && Shown() && i < |list| && list[i] == c
      modifies rooms, buffers, `views
      ensures Owned() && |views| == |list| && Shown()
      ensures views == old(views)[i := Told(old(views)[i], MakeEntry(sender, text, kind))]
    {
      hide Appended, MakeEntry;
      if c.room != null {
        c.room.Append(sender, text, kind);
        views := views[i := Told(views[i], MakeEntry(sender, text, kind))];
      }
    }

    // One client's turn in a presence broadcast.
    method HearOne(c: ChatClient, client: ChatClient, ghost i: nat, ghost j: nat)
      requires Owned() && Numbered() && |views| == |list| && Shown()
      requires i < |list| && list[i] == c && j < |list| && list[j] == client
      modifies c`roster, `views
      ensures Owned() && |views| == |list| && Shown()
      ensures views == old(views)[i := Hears(old(views)[i], old(views)[j])]
    {
      hide Heard;
      assert c.id == client.id <==> c == client;
      if c != client {
        c.Hear(client, views[j]);
        views := views[i := Hears(views[i], views[j])];
        assert forall k :: 0 <= k < |list| && k != i ==> list[k] != c;
      }
    }

    method ChangeStatus(client: ChatClient, status: Status, ghost j: nat)
      requires Owned() && Numbered() && |views| == |list| && Shown() && j < |list| && list[j] == client
      modifies client`status, `views
      ensures Owned() && |views| == |list| && Shown()
      ensures views == old(views)[j := old(views)[j].(status := status)]
    {
      client.status := status;
      views := views[j := views[j].(status := status)];
      assert forall k :: 0 <= k < |list| && k != j ==> list[k] != client;
    }

    lemma Follows(i: nat)
      requires Linked() && i <= |list|
      ensures i == 0 ==> head == At(list, i)
      ensures i < |list| ==> list[i].next == At(list, i + 1)
    {
    }

    // chat_ipc_broadcast_system, and the first loop of chat_ipc_send_muc_message
    method AppendToAll(sender: string, text: string, kind: Kind)
      requires Valid()
      modifies rooms, buffers, `views
      ensures Valid() && views == Announce(old(views), MakeEntry(sender, text, kind))
    {
      hide Told, Announce, AnnouncedTo, MakeEntry, Owned, Shown, Numbered, Linked;
      ghost var before, e := views, MakeEntry(sender, text, kind);
      var c := head;
      ghost var i := 0;
      Follows(0);
      AnnouncedEnds(before, e);
      while c != null
        invariant Valid() && 0 <= i <= |list| == |before| && c == At(list, i)
        invariant views == AnnouncedTo(before, i, e)
        decreases |list| - i
      {
        AnnouncedNext(before, i, e);
        Follows(i);
        Tell(c, sender, text, kind, i);
        c := c.next;
        i := i + 1;
      }
    }

    // chat_ipc_broadcast_presence
    method BroadcastPresence(client: ChatClient, ghost j: nat)
      requires Valid() && j < |list| && list[j] == client
      modifies list`roster, `views
      ensures Valid() && views == Broadcast(old(views), old(views)[j])
    {
      hide Hears, Broadcast, HeardTo, Owned, Shown, Numbered, Linked;
      ghost var before, who := views, views[j];
      var c := head;
      ghost var i := 0;
      Follows(0);
      HeardEnds(before, who);
      while c != null
        invariant Valid() && 0 <= i <= |list| == |before| && c == At(list, i)
        invariant views == HeardTo(before, i, who)
        decreases |list| - i
      {
        HeardNext(before, i, j);
        Follows(i);
        HearOne(c, client, i, j);
        c := c.next;
        i := i + 1;
      }
    }

    lemma PlaceOf(j: nat)
      requires Valid() && j < |list|
      ensures Place(views, list[j].id) == j && views[j].nick == list[j].nick && views[j].id == list[j].id
      ensures views[j].roster == list[j].roster && (views[j].room.None? <==> list[j].room == null)
    {
      assert forall i :: 0 <= i < j ==> list[i].Shows(views[i]) && list[i].id > list[j].id;
      PlaceIs(views, list[j].id, j);
    }

    // chat_ipc_send_muc_message
    method SendToRoom(sender: ChatClient, text: string, ghost j: nat)
      requires Valid() && j < |list| && list[j] == sender
      modifies rooms, buffers, `views
      ensures Valid() && State() == Step(old(State()), Say(sender.id, text))
    {
      hide Announce, BotReply, Linked, Owned, Shown, Numbered, MakeEntry;
      PlaceOf(j);
      if |text| == 0 {
        return;
      }
      AppendToAll(sender.nick, text, GROUPCHAT);
      BotAnswers(sender.nick, text);
    }

    method BotAnswers(nick: string, text: string)
      requires Valid()
      modifies rooms, buffers, `views
      ensures Valid()
      ensures views == match BotReply(nick, text) case None => old(views) case Some(e) => Announce(old(views), e)
    {
      hide Announce, Contains, Linked, Owned, Shown, Numbered, MakeEntry;
      if Contains(text, "hello") || Contains(text, "Hello") || Contains(text, "hi") || Contains(text, "Hi") || Contains(text, "spec") {
        var reply;
        if Contains(text, "spec") {
          reply := Trunc("Conforming strictly to BTRON3 SPEC 3.20 & TRON HMI guidelines!", 127);
        } else {
          reply := Trunc("Greetings @" + nick + "! Welcome to the B-System Chat Network.", 127);
        }
        AppendToAll("Sakamura-Sensei", reply, GROUPCHAT);
      }
    }

    // The status picker of the main window steps through the four states.
    method CycleStatus(client: ChatClient, ghost j: nat)
      requires Valid() && j < |list| && list[j] == client
      modifies client`status, list`roster, `views
      ensures Valid() && State() == Step(old(State()), SetStatus(client.id, Next(old(client.status))))
    {
      hide Broadcast, Linked, Owned, Shown, Numbered, Next;
      PlaceOf(j);
      ChangeStatus(client, Next(client.status), j);
      BroadcastPresence(client, j);
    }

    // Its connect button toggles between online and offline.
    method ToggleConnected(client: ChatClient, ghost j: nat)
      requires Valid() && j < |list| && list[j] == client
      modifies client`status, client`connected, list`roster, `views
      ensures Valid() && client.connected == !old(client.connected)
      ensures State() == Step(old(State()), SetStatus(client.id, if client.connected then ONLINE else OFFLINE))
    {
      hide Broadcast, Linked, Owned, Shown, Numbered;
      PlaceOf(j);
      client.connected := !client.connected;
      ChangeStatus(client, if client.connected then ONLINE else OFFLINE, j);
      BroadcastPresence(client, j);
    }

    // The Add button of the buddy dialog.
    method AddBuddy(client: ChatClient, jid: string, nick: string, group: string, ghost j: nat)
      requires Valid() && j < |list| && list[j] == client
      modifies client`roster, `views
      ensures Valid() && State() == Step(old(State()), ChatModel.AddBuddy(client.id, jid, nick, group))
    {
      hide Linked, Owned, Shown, Numbered, Buddy;
      PlaceOf(j);
      if |client.roster| < MAX_ROSTER {
        SetRoster(client, client.roster + [Buddy(jid, nick, group)], j);
      }
    }

    method SetRoster(client: ChatClient, roster: seq<RosterItem>, ghost j: nat)
      requires Owned() && Numbered() && |views| == |list| && Shown() && j < |list| && list[j] == client
      modifies client`roster, `views
      ensures Owned() && |views| == |list| && Shown()
      ensures views == old(views)[j := old(views)[j].(roster := roster)]
    {
      client.roster := roster;
      views := views[j := views[j].(roster := roster)];
      assert forall k :: 0 <= k < |list| && k != j ==> list[k] != client;
    }

    // open_chat_muc_window
    method OpenRoom(client: ChatClient, ghost j: nat)
      requires Valid() && j < |list| && list[j] == client
      modifies client`room, `views, `rooms, `buffers
      ensures Valid() && State() == Step(old(State()), ChatModel.OpenRoom(client.id))
    {
      hide Linked, MakeEntry, Owned, Shown, Numbered, Welcome;
      PlaceOf(j);
      if client.room != null {
        return;
      }
      var w := NewRoom();
      SetRoom(client, w, j);
    }

    // A window with the greeting in it.
    method NewRoom() returns (w: ChatWindow)
      ensures fresh(w) && fresh(w.history) && w.Valid() && w.Transcript() == [Welcome()]
    {
      hide MakeEntry;
      w := new ChatWindow();
      w.Append("System", "Welcome to B-System 3.20 BeOS Chatroom (#btron-hall)!", SYSTEM);
      assert [] + [Welcome()] == [Welcome()];
    }

    method SetRoom(client: ChatClient, w: ChatWindow, ghost j: nat)
      requires Owned() && Numbered() && |views| == |list| && Shown() && j < |list| && list[j] == client
      requires client.room == null && w.Valid() && w !in rooms && w.history !in buffers
      modifies client`room, `views, `rooms, `buffers
      ensures Owned() && |views| == |list| && Shown()
      ensures views == old(views)[j := old(views)[j].(room := Some(w.Transcript()))]
    {
      client.room := w;
      rooms, buffers := rooms + {w}, buffers + {w.history};
      views := views[j := views[j].(room := Some(w.Transcript()))];
      assert forall k :: 0 <= k < |list| && k != j ==> list[k] != client;
    }

    // Puts a new client in front of the list.
    method Prepend(nick: string) returns (c: ChatClient)
      requires Valid()
      modifies this
      ensures Valid() && fresh(c) && list == [c] + old(list)
      ensures rooms == old(rooms) && buffers == old(buffers)
      ensures nextId == old(nextId) + 1 && views == [NewClient(old(nextId), nick)] + old(views)
    {
      hide NewClient, IsList, OwnRooms, Descending, AllShow;
      c := new ChatClient(nextId, nick);
      nextId := nextId + 1;
      c.next := head;
      head := c;
      ghost var tail := list;
      list := [c] + list;
      views := [NewClient(c.id, nick)] + views;
      ConsList(c, tail);
      ConsOwn(c, tail, rooms, buffers);
      ConsShow(c, tail, views, rooms, buffers);
      ConsDescending(c, tail, c.id);
    }

    // chat_ipc_register_client, once the nick is chosen
    method Register(nick: string) returns (c: ChatClient)
      requires Valid()
      modifies this, list`roster, rooms, buffers
      ensures Valid() && fresh(c) && list == [c] + old(list)
      ensures State() == Step(old(State()), Join(nick))
    {
      hide Announce, Broadcast, Linked, Owned, Shown, Numbered, NewClient, MakeEntry;
      c := Prepend(nick);
      NewNick(old(nextId), nick);
      BroadcastPresence(c, 0);
      AppendToAll("System", Trunc("--> " + Trunc(nick, 31) + " has entered the room.", 127), SYSTEM);
    }

    // chat_ipc_register_client: the nick it asks for, or a generated one.
    method RegisterClient(preferred: Option<string>, names: NickGenerator, seed: nat) returns (c: ChatClient)
      requires Valid() && names.Valid() && seed < UINT_RANGE
      modifies this, names, list`roster, rooms, buffers
      ensures Valid() && names.Valid() && fresh(c) && list == [c] + old(list)
      ensures State() == Step(old(State()), Join(
        if preferred.Some? && preferred.value != "" then preferred.value
        else NickFor(if old(names.counter) == 0 then seed else old(names.counter))))
    {
      hide Linked, Owned, Shown, Numbered, Step, NickFor;
      ghost var asked := if preferred.Some? && preferred.value != "" then preferred.value
                         else NickFor(if names.counter == 0 then seed else names.counter);
      var nick := names.Choose(preferred, seed);
      JoinCut(State(), asked);
      c := Register(nick);
    }

    // Takes one client out of the list: from the front, or by finding the one before it.
    method Unlink(client: ChatClient, ghost j: nat)
      requires Valid() && j < |list| && list[j] == client
      modifies `head, `list, `views, list`next
      ensures Valid()
      ensures list == old(list)[..j] + old(list)[j + 1..] && views == old(views)[..j] + old(views)[j + 1..]
    {
      hide OwnRooms, IsList, Descending, AllShow;
      assert Without(list, j) == list[..j] + list[j + 1..] && Without(views, j) == views[..j] + views[j + 1..];
      hide Without;
      CutOwn(list, rooms, buffers, j);
      CutDescending(list, nextId, j);
      Skip(client, j);
      CutShow(list, views, rooms, buffers, j);
      list, views := Without(list, j), Without(views, j);
    }

    // Makes the links pass over the client at j.
    method Skip(client: ChatClient, ghost j: nat)
      requires Linked() && Numbered() && j < |list| && list[j] == client
      modifies `head, list`next
      ensures IsList(head, Without(list, j))
    {
      hide Numbered;
      Follows(0);
      Distinct(0, j);
      if head == client {
        head := client.next;
        CutFirst(head, list);
      } else {
        var curr := Before(client, j);
        DistinctFrom(j - 1);
        curr.next := client.next;
        CutLater(head, list, j);
      }
    }

    lemma Distinct(i: nat, j: nat)
      requires Numbered() && i < |list| && j < |list|
      ensures list[i] == list[j] <==> i == j
    {
    }

    lemma DistinctFrom(j: nat)
      requires Numbered() && j < |list|
      ensures forall i :: 0 <= i < |list| && i != j ==> list[i] != list[j]
    {
      forall i | 0 <= i < |list| && i != j
        ensures list[i] != list[j]
      {
        Distinct(i, j);
      }
    }

    method Before(client: ChatClient, ghost j: nat) returns (curr: ChatClient)
      requires Linked() && Numbered() && 0 < j < |list| && list[j] == client
      ensures curr == list[j - 1]
    {
      hide Linked, Numbered;
      var c := head;
      ghost var i := 0;
      Follows(0);
      while c != null && c.next != client
        invariant 0 <= i < j && c == list[i]
        decreases j - i
      {
        Follows(i);
        c := c.next;
        i := i + 1;
      }
      Follows(i);
      Distinct(i + 1, j);
      curr := c;
    }

    // chat_ipc_unregister_client
    method Unregister(client: ChatClient, ghost j: nat)
      requires Valid() && j < |list| && list[j] == client
      modifies this, list`roster, list`next, client`status, rooms, buffers
      ensures Valid() && list == old(list)[..j] + old(list)[j + 1..]
      ensures State() == Step(old(State()), Leave(client.id))
    {
      hide Announce, Broadcast, Linked, Owned, Shown, Numbered, MakeEntry, Told, Place, Step;
      PlaceOf(j);
      LeaveStep(State(), client.id, j);
      AppendToAll("System", Trunc("<-- " + client.nick + " has left the room.", 127), SYSTEM);
      ChangeStatus(client, OFFLINE, j);
      BroadcastPresence(client, j);
      Unlink(client, j);
    }
  }

  lemma LeaveStep(b: Bus, id: int, k: nat)
    requires k < |b.clients| && Place(b.clients, id) == k
    ensures var told := Announce(b.clients, MakeEntry("System", Trunc("<-- " + b.clients[k].nick + " has left the room.", 127), SYSTEM));
            var gone := told[k].(status := OFFLINE);
            var heard := Broadcast(told[k := gone], gone);
            Step(b, Leave(id)) == Bus(heard[..k] + heard[k + 1..], b.nextId)
  {
    hide Announce, Broadcast, MakeEntry, Place;
  }

  // Passing over one entry leaves a list: the first one, or one behind another.
  lemma CutFirst(head: ChatClient?, list: seq<ChatClient>)
    requires list != [] && IsList(list[0], list) && head == At(list, 1)
    ensures IsList(head, Without(list, 0))
  {
    WithoutAt(list, 0);
  }

  lemma CutLater(head: ChatClient?, list: seq<ChatClient>, j: nat)
    requires 0 < j < |list| && head == list[0]
    requires forall i :: 0 <= i < |list| && i != j - 1 ==> list[i].next == At(list, i + 1)
    requires list[j - 1].next == At(list, j + 1)
    ensures IsList(head, Without(list, j))
  {
    var r := Without(list, j);
    WithoutAt(list, j);
    forall i | 0 <= i < |r|
      ensures r[i].next == At(r, i + 1)
    {
      assert r[i] == if i < j then list[i] else list[i + 1];
      assert i + 1 < |r| ==> r[i + 1] == if i + 1 < j then list[i + 1] else list[i + 2];
    }
  }

  lemma ConsList(c: ChatClient, tail: seq<ChatClient>)
    requires IsList(c.next, tail)
    ensures IsList(c, [c] + tail)
  {
    var list := [c] + tail;
    assert forall i :: 0 < i < |list| ==> list[i] == tail[i - 1];
  }

  lemma ConsOwn(c: ChatClient, tail: seq<ChatClient>, rooms: set<ChatWindow>, buffers: set<array<Entry>>)
    requires OwnRooms(tail, rooms, buffers) && c.room == null
    ensures OwnRooms([c] + tail, rooms, buffers)
  {
    var list := [c] + tail;
    assert forall i :: 0 < i < |list| ==> list[i] == tail[i - 1];
  }

  lemma ConsDescending(c: ChatClient, tail: seq<ChatClient>, n: int)
    requires Descending(tail, n) && c.id == n
    ensures Descending([c] + tail, n + 1)
  {
    var list := [c] + tail;
    assert forall i :: 0 < i < |list| ==> list[i] == tail[i - 1];
  }

  lemma ConsShow(c: ChatClient, tail: seq<ChatClient>, views: seq<Client>, rooms: set<ChatWindow>, buffers: set<array<Entry>>)
    requires |views| == |tail| + 1 && c.room == null && c.Shows(views[0])
    requires OwnRooms(tail, rooms, buffers) && AllShow(tail, views[1..], rooms, buffers)
    requires OwnRooms([c] + tail, rooms, buffers)
    ensures AllShow([c] + tail, views, rooms, buffers)
  {
    var list := [c] + tail;
    assert forall i :: 0 < i < |list| ==> list[i] == tail[i - 1] && views[i] == views[1..][i - 1];
  }

  lemma CutShow(list: seq<ChatClient>, views: seq<Client>, rooms: set<ChatWindow>, buffers: set<array<Entry>>, j: nat)
    requires |views| == |list| && j < |list|
    requires OwnRooms(list, rooms, buffers) && AllShow(list, views, rooms, buffers)
    requires OwnRooms(Without(list, j), rooms, buffers)
    ensures AllShow(Without(list, j), Without(views, j), rooms, buffers)
  {
    WithoutAt(list, j);
    WithoutAt(views, j);
    assert forall i :: 0 <= i < |list| ==> list[i].Shows(views[i]);
  }

  lemma CutOwn(list: seq<ChatClient>, rooms: set<ChatWindow>, buffers: set<array<Entry>>, j: nat)
    requires OwnRooms(list, rooms, buffers) && j < |list|
    ensures OwnRooms(Without(list, j), rooms, buffers)
  {
    WithoutAt(list, j);
  }

  lemma CutDescending(list: seq<ChatClient>, n: int, j: nat)
    requires Descending(list, n) && j < |list|
    ensures Descending(Without(list, j), n)
  {
    WithoutAt(list, j);
  }

  // A nick is cut to its buffer before it is used.
  lemma JoinCut(b: Bus, nick: string)
    ensures Step(b, Join(Trunc(nick, 31))) == Step(b, Join(nick))
  {
    assert NewClient(b.nextId, Trunc(nick, 31)) == NewClient(b.nextId, nick);
  }

  lemma NewNick(id: int, nick: string)
    ensures NewClient(id, nick).nick == Trunc(nick, 31)
  {
  }

  lemma PlaceIs(cs: seq<Client>, id: int, j: nat)
    requires j < |cs| && cs[j].id == id && forall i :: 0 <= i < j ==> cs[i].id != id
    ensures Place(cs, id) == j
  {
  }

  // The picker goes round through all four.
  lemma NextGoesRound()
    ensures Next(OFFLINE) == ONLINE && Next(ONLINE) == AWAY && Next(AWAY) == DND && Next(DND) == OFFLINE
  {
  }

  // (status + 1) % 4
  function Next(s: Status): Status
  {
    match s
    case OFFLINE => ONLINE
    case ONLINE => AWAY
    case AWAY => DND
    case DND => OFFLINE
  }

  // A broadcast that has reached the first n clients.
  function AnnouncedTo(cs: seq<Client>, n: nat, e: Entry): (r: seq<Client>)
    requires n <= |cs|
    ensures |r| == |cs|
  {
    Announce(cs[..n], e) + cs[n..]
  }

  lemma AnnouncedNext(cs: seq<Client>, n: nat, e: Entry)
    requires n < |cs|
    ensures AnnouncedTo(cs, n, e)[n] == cs[n]
    ensures AnnouncedTo(cs, n, e)[n := Told(cs[n], e)] == AnnouncedTo(cs, n + 1, e)
  {
  }

  lemma AnnouncedEnds(cs: seq<Client>, e: Entry)
    ensures AnnouncedTo(cs, 0, e) == cs && AnnouncedTo(cs, |cs|, e) == Announce(cs, e)
  {
    assert cs[..|cs|] == cs;
  }

  function HeardTo(cs: seq<Client>, n: nat, who: Client): (r: seq<Client>)
    requires n <= |cs|
    ensures |r| == |cs|
  {
    Broadcast(cs[..n], who) + cs[n..]
  }

  lemma HeardNext(cs: seq<Client>, n: nat, j: nat)
    requires n < |cs| && j < |cs|
    ensures var r := HeardTo(cs, n, cs[j]);
            r[n] == cs[n] && r[j] == cs[j] && r[n := Hears(cs[n], cs[j])] == HeardTo(cs, n + 1, cs[j])
  {
    assert Hears(cs[j], cs[j]) == cs[j];
  }

  lemma HeardEnds(cs: seq<Client>, who: Client)
    ensures HeardTo(cs, 0, who) == cs && HeardTo(cs, |cs|, who) == Broadcast(cs, who)
  {
    assert cs[..|cs|] == cs;
  }
}
