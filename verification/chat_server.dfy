/**
 * The room registry and relay rules of the chat server (Laboratory_3/server.py).
 *
 * The global dictionary `clients` maps a room name to the ordered list of
 * `(username, writer)` pairs that joined it. Sockets are replaced by connection
 * ids: every `writer.write(...)` appends one line to that connection's outbox,
 * and `writer.close()` puts the connection in `closed`. Each handler step below
 * (admission, one relayed line, the `finally` cleanup) is one method: under the
 * cooperative event loop none of them is interleaved with another handler
 * between its registry check and its registry update.
 */
module ChatServer {
  import opened Text
  import opened Seqs

  type ConnId = nat

  /** One `(username, writer)` entry of a room's list. */
  datatype Member = Member(username: string, conn: ConnId)

  /** Rooms whose name starts with this prefix hold at most two members. */
  const PrivatePrefix: string := "private_"

  /** The line a newcomer to a full private room receives before being closed. */
  const RoomBusy: string := "Комната уже занята.\n"

  /** The text every roster line starts with. */
  const RosterHead: string := "Активные пользователи в комнате "

  /** The announcement broadcast after an admission (sent with a trailing newline). */
  function JoinNotice(username: string): string {
    username + " присоединился к комнате."
  }

  /** The announcement broadcast by the cleanup block (sent with a trailing newline). */
  function LeaveNotice(username: string): string {
    username + " покинул комнату."
  }

  /** The usernames of a room's list, in list (join) order. */
  function Usernames(members: seq<Member>): (names: seq<string>)
    ensures |names| == |members|
    ensures forall i :: 0 <= i < |members| ==> names[i] == members[i].username
  {
    if members == [] then [] else [members[0].username] + Usernames(members[1..])
  }

  /** The roster message of `send_active_users_to_room`, newline included. */
  function RosterLine(room: string, members: seq<Member>): string {
    RosterHead + room + ": " + Join(Usernames(members), ", ") + "\n"
  }

  /** `clients[room]`, with an unknown room standing for an empty list. */
  function Members(clients: map<string, seq<Member>>, room: string): seq<Member> {
    if room in clients then clients[room] else []
  }

  /** How many entries of a list belong to connection `c`. */
  function Multiplicity(members: seq<Member>, c: ConnId): nat {
    if members == [] then 0
    else Multiplicity(members[..|members| - 1], c) + (if members[|members| - 1].conn == c then 1 else 0)
  }

  lemma MultiplicityAppend(members: seq<Member>, m: Member, c: ConnId)
    ensures Multiplicity(members + [m], c) == Multiplicity(members, c) + (if m.conn == c then 1 else 0)
  {
    assert (members + [m])[..|members|] == members;
  }

  /** A room's list holds each connection at most once. */
  ghost predicate NoDuplicateConns(members: seq<Member>) {
    forall c :: Multiplicity(members, c) <= 1
  }

  /** The list comprehension of the cleanup block: drop every entry of connection `c`. */
  function RemoveConn(members: seq<Member>, c: ConnId): seq<Member> {
    Filter(members, (m: Member) => m.conn != c)
  }

  /** Removal drops exactly the entries of the leaving connection, keeps every other entry
      in its order, and is a no-op for a connection that is not in the list. */
  lemma {:induction false} RemoveConnSpec(members: seq<Member>, c: ConnId)
    ensures IsSubsequence(RemoveConn(members, c), members)
    ensures Multiplicity(RemoveConn(members, c), c) == 0
    ensures forall d :: d != c ==> Multiplicity(RemoveConn(members, c), d) == Multiplicity(members, d)
    ensures Multiplicity(members, c) == 0 ==> RemoveConn(members, c) == members
    ensures |RemoveConn(members, c)| == |members| - Multiplicity(members, c)
  {
    FilterOrder(members, (m: Member) => m.conn != c);
    if members != [] {
      var init, last := members[..|members| - 1], members[|members| - 1];
      RemoveConnSpec(init, c);
      var r := RemoveConn(init, c);
      if last.conn != c {
        assert RemoveConn(members, c) == r + [last];
        forall d {
          MultiplicityAppend(r, last, d);
        }
      } else {
        assert RemoveConn(members, c) == r;
      }
    }
  }

  /** Removing a connection that was appended to a list not holding it gives the list back. */
  lemma RemoveNewcomer(members: seq<Member>, m: Member)
    requires Multiplicity(members, m.conn) == 0
    ensures RemoveConn(members + [m], m.conn) == members
  {
    RemoveConnSpec(members, m.conn);
    assert (members + [m])[..|members|] == members;
  }

  /** A second update of the same room overrides the first. */
  lemma UpdateTwice(clients: map<string, seq<Member>>, room: string, first: seq<Member>, second: seq<Member>)
    ensures clients[room := first][room := second] == clients[room := second]
  {
  }

  /** What has been written to connection `c` so far. */
  function Inbox(outbox: map<ConnId, seq<string>>, c: ConnId): seq<string> {
    if c in outbox then outbox[c] else []
  }

  /** One `writer.write(line)`. */
  function Post(outbox: map<ConnId, seq<string>>, c: ConnId, line: string): map<ConnId, seq<string>> {
    outbox[c := Inbox(outbox, c) + [line]]
  }

  /** The effect of a broadcast loop: `line` written to each entry of `members`, in list order. */
  function Deliver(outbox: map<ConnId, seq<string>>, members: seq<Member>, line: string): map<ConnId, seq<string>> {
    if members == [] then outbox
    else Post(Deliver(outbox, members[..|members| - 1], line), members[|members| - 1].conn, line)
  }

  /** The two broadcasts that follow a change of a room's list: the roster line, then an
      announcement with its newline, each to every entry of `members` in list order. */
  function Announce(outbox: map<ConnId, seq<string>>, room: string, members: seq<Member>, notice: string): map<ConnId, seq<string>> {
    Deliver(Deliver(outbox, members, RosterLine(room, members)), members, notice + "\n")
  }

  /** `k` copies of one line. */
  function Repeat(line: string, k: nat): (r: seq<string>)
    ensures |r| == k && forall i :: 0 <= i < k ==> r[i] == line
  {
    seq(k, _ => line)
  }

  /** A broadcast appends the line to a connection's inbox once per entry it has in the list,
      and leaves every other connection's inbox as it was. */
  lemma {:induction false} DeliverInbox(outbox: map<ConnId, seq<string>>, members: seq<Member>, line: string, c: ConnId)
    ensures Inbox(Deliver(outbox, members, line), c) == Inbox(outbox, c) + Repeat(line, Multiplicity(members, c))
  {
    if members != [] {
      var init := members[..|members| - 1];
      DeliverInbox(outbox, init, line, c);
      var k := Multiplicity(init, c);
      if members[|members| - 1].conn == c {
        assert Repeat(line, k) + [line] == Repeat(line, k + 1);
      }
    }
  }

  /** A broadcast to a list holding a connection at most once gives it the line once if it is
      a member and nothing otherwise. */
  lemma DeliverOnce(outbox: map<ConnId, seq<string>>, members: seq<Member>, line: string, c: ConnId)
    requires Multiplicity(members, c) <= 1
    ensures Inbox(Deliver(outbox, members, line), c)
         == Inbox(outbox, c) + (if Multiplicity(members, c) == 1 then [line] else [])
  {
    DeliverInbox(outbox, members, line, c);
    if Multiplicity(members, c) == 1 {
      assert Repeat(line, 1) == [line];
    } else {
      assert Repeat(line, 0) == [];
    }
  }

  /** Two broadcasts to the same list: each member receives the first line, then the second;
      connections outside the list receive nothing. */
  lemma BroadcastPair(outbox: map<ConnId, seq<string>>, members: seq<Member>, first: string, second: string, c: ConnId)
    requires Multiplicity(members, c) <= 1
    ensures Inbox(Deliver(Deliver(outbox, members, first), members, second), c)
         == Inbox(outbox, c) + (if Multiplicity(members, c) == 1 then [first, second] else [])
  {
    DeliverOnce(outbox, members, first, c);
    DeliverOnce(Deliver(outbox, members, first), members, second, c);
  }

  /** The lines members receive for a run of relayed lines: each one stripped, plus a newline. */
  function Relayed(lines: seq<string>): (out: seq<string>)
    ensures |out| == |lines|
  {
    if lines == [] then [] else Relayed(lines[..|lines| - 1]) + [Strip(lines[|lines| - 1]) + "\n"]
  }

  /** Each line read is relayed as its stripped text plus a newline, in read order. */
  lemma {:induction false} RelayedSpec(lines: seq<string>)
    ensures forall i :: 0 <= i < |lines| ==> Relayed(lines)[i] == Strip(lines[i]) + "\n"
  {
    if lines != [] {
      RelayedSpec(lines[..|lines| - 1]);
    }
  }

  /** A line of whitespace only, such as a bare newline, is not the end of input: it is
      relayed as an empty message. */
  lemma BlankLineRelayed(lines: seq<string>, i: nat)
    requires i < |lines| && AllSpace(lines[i])
    ensures Relayed(lines)[i] == "\n"
  {
    RelayedSpec(lines);
    StripBlank(lines[i]);
  }

  /** Reading one more line adds its stripped form to the relayed messages. */
  lemma RelayedStep(lines: seq<string>, n: nat)
    requires n < |lines|
    ensures Relayed(lines[..n + 1]) == Relayed(lines[..n]) + [Strip(lines[n]) + "\n"]
  {
    assert lines[..n + 1][..n] == lines[..n];
  }

  /** The effect of a run of broadcasts to one list, one per message, in order. */
  function DeliverAll(outbox: map<ConnId, seq<string>>, members: seq<Member>, messages: seq<string>): map<ConnId, seq<string>> {
    if messages == [] then outbox
    else Deliver(DeliverAll(outbox, members, messages[..|messages| - 1]), members, messages[|messages| - 1])
  }

  /** One more message is one more broadcast. */
  lemma DeliverAllSnoc(outbox: map<ConnId, seq<string>>, members: seq<Member>, messages: seq<string>, m: string)
    ensures DeliverAll(outbox, members, messages + [m]) == Deliver(DeliverAll(outbox, members, messages), members, m)
  {
    assert (messages + [m])[..|messages|] == messages;
  }

  /** Every member of the list, the sender included, receives every message in order; a
      connection outside the list receives nothing. */
  lemma {:induction false} DeliverAllInbox(outbox: map<ConnId, seq<string>>, members: seq<Member>, messages: seq<string>, c: ConnId)
    requires Multiplicity(members, c) <= 1
    ensures Inbox(DeliverAll(outbox, members, messages), c)
         == Inbox(outbox, c) + (if Multiplicity(members, c) == 1 then messages else [])
  {
    if messages != [] {
      var init, last := messages[..|messages| - 1], messages[|messages| - 1];
      var before := DeliverAll(outbox, members, init);
      assert DeliverAll(outbox, members, messages) == Deliver(before, members, last);
      DeliverAllInbox(outbox, members, init, c);
      DeliverOnce(before, members, last, c);
      if Multiplicity(members, c) == 1 {
        assert Inbox(before, c) == Inbox(outbox, c) + init;
        assert messages == init + [last];
        assert Inbox(outbox, c) + init + [last] == Inbox(outbox, c) + messages;
      } else {
        assert Inbox(before, c) == Inbox(outbox, c);
      }
    }
  }

  /** Every room keeps each connection once, and a private room holds at most two entries. */
  ghost predicate Registry(clients: map<string, seq<Member>>) {
    forall room :: room in clients ==>
      NoDuplicateConns(clients[room]) && (StartsWith(room, PrivatePrefix) ==> |clients[room]| <= 2)
  }

  /** A connection that `start_server` has just accepted is in no room yet. */
  ghost predicate Unregistered(clients: map<string, seq<Member>>, c: ConnId) {
    forall room :: room in clients ==> Multiplicity(clients[room], c) == 0
  }

  /** Appending a fresh connection to a room that is not a full private room keeps the registry sound. */
  lemma RegistryAppend(clients: map<string, seq<Member>>, room: string, m: Member)
    requires Registry(clients)
    requires Multiplicity(Members(clients, room), m.conn) == 0
    requires !RoomFull(clients, room)
    ensures Registry(clients[room := Members(clients, room) + [m]])
  {
    var before := Members(clients, room);
    forall c ensures Multiplicity(before + [m], c) <= 1 {
      MultiplicityAppend(before, m, c);
    }
  }

  /** Dropping a connection from a room keeps the registry sound. */
  lemma RegistryRemove(clients: map<string, seq<Member>>, room: string, c: ConnId)
    requires Registry(clients) && room in clients
    ensures Registry(clients[room := RemoveConn(clients[room], c)])
  {
    RemoveConnSpec(clients[room], c);
  }

  /** After the cleanup removes a connection from the only room that held it, no room holds it. */
  lemma UnregisteredAfterRemove(clients: map<string, seq<Member>>, room: string, c: ConnId)
    requires room in clients
    requires forall r :: r in clients && r != room ==> Multiplicity(clients[r], c) == 0
    ensures Unregistered(clients[room := RemoveConn(clients[room], c)], c)
  {
    RemoveConnSpec(clients[room], c);
  }

  /** Replacing one room's list leaves a fresh connection absent from every other room. */
  lemma UnregisteredElsewhere(clients: map<string, seq<Member>>, joined: map<string, seq<Member>>, room: string, members: seq<Member>, c: ConnId)
    requires Unregistered(clients, c) && joined == clients[room := members]
    ensures forall r :: r in joined && r != room ==> Multiplicity(joined[r], c) == 0
  {
  }

  /** The admission test of `handle_client`: a private room already holding two or more entries is full. */
  predicate RoomFull(clients: map<string, seq<Member>>, room: string) {
    StartsWith(room, PrivatePrefix) && room in clients && |clients[room]| > 1
  }

  class Server {
    /** room name -> ordered list of members */
    var clients: map<string, seq<Member>>
    /** connection -> lines written to it, oldest first */
    var outbox: map<ConnId, seq<string>>
    /** connections on which `writer.close()` was called */
    var closed: set<ConnId>

    ghost predicate Valid()
      reads this
    {
      Registry(clients)
    }

    /** The server at start-up: no rooms, nothing written. */
    constructor ()
      ensures Valid()
      ensures clients == map[] && outbox == map[] && closed == {}
    {
      clients := map[];
      outbox := map[];
      closed := {};
    }

    /** `writer.write(line)` on connection `c`. */
    method Write(c: ConnId, line: string)
      modifies this
      ensures outbox == Post(old(outbox), c, line)
      ensures clients == old(clients) && closed == old(closed)
    {
      outbox := Post(outbox, c, line);
    }

    /** `send_message_to_room`: the message plus a newline to every entry of the room, in
        list order; nothing for an unknown room. */
    method SendMessageToRoom(room: string, message: string)
      modifies this
      ensures outbox == Deliver(old(outbox), Members(old(clients), room), message + "\n")
      ensures clients == old(clients) && closed == old(closed)
    {
      if room in clients {
        Broadcast(clients[room], message + "\n");
      }
    }

    /** `send_active_users_to_room`: the roster line, computed from the list at this moment,
        to every entry of the room; nothing for an unknown room. */
    method SendActiveUsersToRoom(room: string)
      modifies this
      ensures outbox == Deliver(old(outbox), Members(old(clients), room), RosterLine(room, Members(old(clients), room)))
      ensures clients == old(clients) && closed == old(closed)
    {
      if room in clients {
        var members := clients[room];
        Broadcast(members, RosterLine(room, members));
      }
    }

    /** The `for ... in clients[room]` loop shared by both broadcast helpers. */
    method Broadcast(members: seq<Member>, line: string)
      modifies this
      ensures outbox == Deliver(old(outbox), members, line)
      ensures clients == old(clients) && closed == old(closed)
    {
      var i := 0;
      while i < |members|
        invariant 0 <= i <= |members|
        invariant outbox == Deliver(old(outbox), members[..i], line)
        invariant clients == old(clients) && closed == old(closed)
      {
        assert members[..i + 1][..i] == members[..i];
        Write(members[i].conn, line);
        i := i + 1;
      }
      assert members[..|members|] == members;
    }

    /** The `finally` block of `handle_client`: if the room is known, drop the connection's
        entries from it and broadcast the new roster; then broadcast the leave line to whoever
        is left and close the connection. The room key stays even when its list is empty. */
    method Leave(conn: ConnId, room: string, username: string)
      requires Valid()
      modifies this
      ensures Valid()
      ensures var remaining := RemoveConn(Members(old(clients), room), conn);
        && clients == (if room in old(clients) then old(clients)[room := remaining] else old(clients))
        && outbox == Announce(old(outbox), room, remaining, LeaveNotice(username))
        && closed == old(closed) + {conn}
    {
      if room in clients {
        RegistryRemove(clients, room, conn);
        clients := clients[room := RemoveConn(clients[room], conn)];
        SendActiveUsersToRoom(room);
      }
      SendMessageToRoom(room, LeaveNotice(username));
      closed := closed + {conn};
    }

    /** Registration of a fresh connection (lines 14-29 of `handle_client`). A full private room
        gets the busy line and the connection is closed; the `return` then runs the `finally`
        block, which re-broadcasts the roster and a leave line to the existing members.
        Otherwise the room is created if needed, the entry appended at the end, and every member
        receives the roster line and then the join line. */
    method Admit(conn: ConnId, username: string, room: string) returns (admitted: bool)
      requires Valid()
      requires Unregistered(clients, conn)
      modifies this
      ensures Valid()
      ensures admitted == !RoomFull(old(clients), room)
      ensures admitted ==>
        var joined := Members(old(clients), room) + [Member(username, conn)];
        && clients == old(clients)[room := joined]
        && outbox == Announce(old(outbox), room, joined, JoinNotice(username))
        && closed == old(closed)
      ensures !admitted ==>
        var members := old(clients)[room];
        && clients == old(clients)
        && outbox == Announce(Post(old(outbox), conn, RoomBusy), room, members, LeaveNotice(username))
        && closed == old(closed) + {conn}
    {
      if StartsWith(room, PrivatePrefix) {
        if room in clients && |clients[room]| > 1 {
          Refuse(conn, room, username);
          admitted := false;
          return;
        }
      }
      Join(conn, username, room);
      admitted := true;
    }

    /** The refusal branch of `Admit`: the busy line, `writer.close()`, then the `finally` block. */
    method Refuse(conn: ConnId, room: string, username: string)
      requires Valid() && room in clients
      requires Unregistered(clients, conn)
      modifies this
      ensures Valid()
      ensures var members := old(clients)[room];
        && clients == old(clients)
        && outbox == Announce(Post(old(outbox), conn, RoomBusy), room, members, LeaveNotice(username))
        && closed == old(closed) + {conn}
    {
      RemoveConnSpec(clients[room], conn);
      Write(conn, RoomBusy);
      closed := closed + {conn};
      Leave(conn, room, username);
    }

    /** The admission branch of `Admit`: the entry goes last in the (possibly new) room list,
        then the roster line and the join line go to every member. */
    method Join(conn: ConnId, username: string, room: string)
      requires Valid()
      requires Unregistered(clients, conn)
      requires !RoomFull(clients, room)
      modifies this
      ensures Valid()
      ensures var joined := Members(old(clients), room) + [Member(username, conn)];
        && clients == old(clients)[room := joined]
        && outbox == Announce(old(outbox), room, joined, JoinNotice(username))
        && closed == old(closed)
    {
      // `clients[room] = []` for a new room, then the append, as one map update
      var joined := Members(clients, room) + [Member(username, conn)];
      assert Multiplicity(Members(clients, room), conn) == 0;
      RegistryAppend(clients, room, Member(username, conn));
      clients := clients[room := joined];
      assert Members(clients, room) == joined;
      SendActiveUsersToRoom(room);
      SendMessageToRoom(room, JoinNotice(username));
    }

    /** One turn of the relay loop: the received line, stripped, goes to every entry of the
        room, the sender included. A blank line is relayed as an empty message. */
    method Relay(room: string, data: string)
      modifies this
      ensures outbox == Deliver(old(outbox), Members(old(clients), room), Strip(data) + "\n")
      ensures clients == old(clients) && closed == old(closed)
    {
      var message := Strip(data);
      SendMessageToRoom(room, message);
    }

    /** The `while True` relay loop: every line read is relayed to the room until the first
        empty read (EOF); a line holding only a newline is not EOF. The registry is untouched. */
    method RelayUntilEof(room: string, lines: seq<string>) returns (relayed: nat)
      modifies this
      ensures relayed <= |lines| && forall i :: 0 <= i < relayed ==> |lines[i]| > 0
      ensures relayed == |lines| || |lines[relayed]| == 0
      ensures outbox == DeliverAll(old(outbox), Members(old(clients), room), Relayed(lines[..relayed]))
      ensures clients == old(clients) && closed == old(closed)
    {
      relayed := 0;
      ghost var start, members := outbox, Members(clients, room);
      assert lines[..0] == [];
      while relayed < |lines| && |lines[relayed]| > 0
        invariant relayed <= |lines|
        invariant forall i :: 0 <= i < relayed ==> |lines[i]| > 0
        invariant outbox == DeliverAll(start, members, Relayed(lines[..relayed]))
        invariant clients == old(clients) && closed == old(closed)
      {
        ghost var sent, message := Relayed(lines[..relayed]), Strip(lines[relayed]) + "\n";
        RelayedStep(lines, relayed);
        DeliverAllSnoc(start, members, sent, message);
        Relay(room, lines[relayed]);
        assert outbox == DeliverAll(start, members, sent + [message]);
        relayed := relayed + 1;
      }
    }

    /** `handle_client` for one connection run on its own: two registration lines, then the
        relay loop over the lines read until EOF (an empty read, or the end of `lines` for a
        dropped connection), then the cleanup. Whatever the path, the connection ends closed
        and in no room. */
    method HandleClient(conn: ConnId, usernameLine: string, roomLine: string, lines: seq<string>)
      returns (admitted: bool, relayed: nat)
      requires Valid()
      requires Unregistered(clients, conn)
      modifies this
      ensures Valid()
      ensures Unregistered(clients, conn)
      ensures closed == old(closed) + {conn}
      ensures admitted == !RoomFull(old(clients), Strip(roomLine))
      ensures relayed <= |lines| && (admitted ==> forall i :: 0 <= i < relayed ==> |lines[i]| > 0)
      ensures admitted ==> relayed == |lines| || |lines[relayed]| == 0
      ensures !admitted ==> relayed == 0
      ensures var username, room := Strip(usernameLine), Strip(roomLine);
        var members := Members(old(clients), room);
        var joined := members + [Member(username, conn)];
        && (admitted ==>
              && clients == old(clients)[room := members]
              && outbox == Announce(DeliverAll(Announce(old(outbox), room, joined, JoinNotice(username)),
                                               joined, Relayed(lines[..relayed])),
                                    room, members, LeaveNotice(username)))
        && (!admitted ==>
              && clients == old(clients)
              && outbox == Announce(Post(old(outbox), conn, RoomBusy), room, members, LeaveNotice(username)))
    {
      var username := Strip(usernameLine);
      var room := Strip(roomLine);
      relayed := 0;
      var members := Members(clients, room);
      var joined := members + [Member(username, conn)];
      ghost var before := clients;
      UnregisteredElsewhere(clients, clients[room := joined], room, joined, conn);
      RemoveNewcomer(members, Member(username, conn));
      admitted := Admit(conn, username, room);
      if !admitted {
        return;
      }
      assert clients == before[room := joined];
      relayed := Serve(conn, room, username, lines);
      UpdateTwice(before, room, joined, members);
    }

    /** The admitted part of `handle_client`: the relay loop, then the `finally` cleanup. */
    method Serve(conn: ConnId, room: string, username: string, lines: seq<string>) returns (relayed: nat)
      requires Valid() && room in clients
      requires forall r :: r in clients && r != room ==> Multiplicity(clients[r], conn) == 0
      modifies this
      ensures Valid()
      ensures Unregistered(clients, conn)
      ensures relayed <= |lines| && forall i :: 0 <= i < relayed ==> |lines[i]| > 0
      ensures relayed == |lines| || |lines[relayed]| == 0
      ensures var remaining := RemoveConn(old(clients)[room], conn);
        && clients == old(clients)[room := remaining]
        && outbox == Announce(DeliverAll(old(outbox), old(clients)[room], Relayed(lines[..relayed])),
                              room, remaining, LeaveNotice(username))
        && closed == old(closed) + {conn}
    {
      relayed := RelayUntilEof(room, lines);
      UnregisteredAfterRemove(clients, room, conn);
      Leave(conn, room, username);
    }
  }
}
