/**
 * The wire-facing rules of the chat client (Laboratory_3/client.py): how a typed
 * message is framed, which lines registration writes, how the connection dialog
 * validates its fields and names a private room, and how incoming text is routed
 * to the roster widget or the chat log. The widgets are modelled by their text.
 */
module ChatClient {
  import opened Text
  import opened Wrappers
  import ChatServer

  /** `get_messages` treats text starting with this as a roster. */
  const RosterMarker: string := "Активные пользователи в комнате"
  /** `get_messages` looks for these substrings to spot presence announcements. */
  const JoinMarker: string := "присоединился к комнате"
  const LeaveMarker: string := "покинул комнату"

  /** The line `send_message` writes: `username(HH:MM): message` and a newline.
      The clock reading `timestamp` is a parameter. */
  function ChatLine(username: string, timestamp: string, message: string): string {
    username + "(" + timestamp + "): " + message + "\n"
  }

  /** What the server relays for a chat line is the line itself whenever the username does not
      start, and the message does not end, with whitespace: the server's strip only removes
      the newline, so every member receives exactly what the client wrote. */
  lemma ChatLineRelayedVerbatim(username: string, timestamp: string, message: string)
    requires username == [] || !IsSpace(username[0])
    requires message != [] && !IsSpace(message[|message| - 1])
    ensures Strip(ChatLine(username, timestamp, message)) + "\n" == ChatLine(username, timestamp, message)
  {
    var body := username + "(" + timestamp + "): " + message;
    assert body[0] == (if username == [] then '(' else username[0]);
    assert body[|body| - 1] == message[|message| - 1];
    StripLine(body);
    assert ChatLine(username, timestamp, message) == body + "\n";
  }

  /** An empty message loses the space after the colon on the server: the peers receive
      `username(HH:MM):` with nothing after it. */
  lemma EmptyChatLineRelayed(username: string, timestamp: string)
    requires username == [] || !IsSpace(username[0])
    ensures Strip(ChatLine(username, timestamp, "")) == username + "(" + timestamp + "):"
  {
    var body := username + "(" + timestamp + "):";
    var line := body + " \n";
    assert ChatLine(username, timestamp, "") == line;
    assert line[0] == (if username == [] then '(' else username[0]);
    assert TrimLeft(line) == line;
    var k := |body| - 1;
    assert line[k] == ':';
    TrimRightKeeps(line, k);
    assert line[..k + 1] == body;
    TrimRightSpec(line);
    assert |TrimRight(line)| == |body| by {
      assert line[|body|] == ' ' && line[|body| + 1] == '\n';
    }
  }

  /** The two lines `register_client` writes, in this order and nothing else. */
  function RegistrationLines(username: string, room: string): (lines: seq<string>)
    ensures |lines| == 2
  {
    [username + "\n", room + "\n"]
  }

  /** The server reads back the username and the room from the registration lines, as long
      as neither has whitespace at its ends. */
  lemma RegistrationRoundTrip(username: string, room: string)
    requires Trimmed(username) && Trimmed(room)
    ensures Strip(RegistrationLines(username, room)[0]) == username
    ensures Strip(RegistrationLines(username, room)[1]) == room
  {
    StripLine(username);
    StripLine(room);
  }

  /** The fields `on_confirm` passes on to `start_chat`. */
  datatype Registration = Registration(ip: string, username: string, room: string)

  /** `on_confirm`: proceed only when ip, username and room are all non-empty; with the private
      option set the room becomes `private_` followed by the username. */
  function OnConfirm(ip: string, username: string, room: string, privateChat: bool): (r: Option<Registration>)
    ensures r.Some? <==> ip != "" && username != "" && room != ""
    ensures r.Some? ==> r.value.ip == ip && r.value.username == username
    ensures r.Some? && !privateChat ==> r.value.room == room
    ensures r.Some? && privateChat ==>
              StartsWith(r.value.room, ChatServer.PrivatePrefix) && r.value.room[|ChatServer.PrivatePrefix|..] == username
  {
    if ip != "" && username != "" && room != "" then
      Some(Registration(ip, username, if privateChat then ChatServer.PrivatePrefix + username else room))
    else None
  }

  /** A private room named by the dialog is still private after the server strips the room
      line, so the server's two-member cap applies to it. */
  lemma PrivateRoomSurvivesStrip(ip: string, username: string, room: string)
    requires OnConfirm(ip, username, room, true).Some?
    ensures StartsWith(Strip(RegistrationLines(username, OnConfirm(ip, username, room, true).value.room)[1]),
                       ChatServer.PrivatePrefix)
  {
    var name := ChatServer.PrivatePrefix + username;
    var line := name + "\n";
    assert line[0] == 'p';
    assert TrimLeft(line) == line;
    assert line[7] == '_';
    TrimRightKeeps(line, 7);
    assert line[..8] == ChatServer.PrivatePrefix;
  }

  /** Where `get_messages` sends a piece of received text. */
  datatype Route = ReplaceRoster(text: string) | AppendToLog(text: string)

  /** The if-chain of `get_messages`: a roster replaces the roster widget's content; a join or
      leave announcement and every other text are appended to the chat log. */
  function Dispatch(chunk: string): Route {
    if StartsWith(chunk, RosterMarker) then ReplaceRoster(chunk + "\n")
    else if Contains(chunk, JoinMarker) || Contains(chunk, LeaveMarker) then AppendToLog(chunk + "\n")
    else AppendToLog(chunk + "\n")
  }

  /** The announcement branch does what the final branch does: only the roster prefix
      decides where text goes. */
  lemma DispatchByRosterPrefix(chunk: string)
    ensures Dispatch(chunk) == if StartsWith(chunk, RosterMarker) then ReplaceRoster(chunk + "\n")
                               else AppendToLog(chunk + "\n")
  {
  }

  /** Every roster line the server sends starts with the client's roster marker. */
  lemma RosterLineRecognised(room: string, members: seq<ChatServer.Member>)
    ensures Dispatch(ChatServer.RosterLine(room, members)) == ReplaceRoster(ChatServer.RosterLine(room, members) + "\n")
  {
    var line := ChatServer.RosterLine(room, members);
    assert ChatServer.RosterHead == RosterMarker + " ";
    assert line == RosterMarker + (" " + room + ": " + Join(ChatServer.Usernames(members), ", ") + "\n");
    assert line[..|RosterMarker|] == RosterMarker;
  }

  /** The client's join and leave substrings occur in the server's announcements. */
  lemma NoticesCarryMarkers(username: string)
    ensures Contains(ChatServer.JoinNotice(username) + "\n", JoinMarker)
    ensures Contains(ChatServer.LeaveNotice(username) + "\n", LeaveMarker)
  {
    assert ChatServer.JoinNotice(username) + "\n" == username + " " + JoinMarker + ".\n";
    ContainsInfix(username + " ", JoinMarker, ".\n");
    assert ChatServer.LeaveNotice(username) + "\n" == username + " " + LeaveMarker + ".\n";
    ContainsInfix(username + " ", LeaveMarker, ".\n");
  }

  /** The rejection line of a full private room goes to the chat log. */
  lemma RoomBusyLogged()
    ensures Dispatch(ChatServer.RoomBusy) == AppendToLog(ChatServer.RoomBusy + "\n")
  {
    assert ChatServer.RoomBusy[0] != RosterMarker[0];
  }

  /** The text of the two widgets `get_messages` writes to. */
  datatype Screen = Screen(roster: string, log: string)

  /** The effect of one received piece of text on the widgets. */
  function Show(screen: Screen, chunk: string): Screen {
    match Dispatch(chunk)
    case ReplaceRoster(text) => screen.(roster := text)
    case AppendToLog(text) => screen.(log := screen.log + text)
  }

  /** The effect of a run of received pieces, oldest first. */
  function ShowAll(screen: Screen, chunks: seq<string>): Screen {
    if chunks == [] then screen else Show(ShowAll(screen, chunks[..|chunks| - 1]), chunks[|chunks| - 1])
  }

  /** The text appended to the chat log by a run of pieces: each non-roster piece and a newline. */
  function LogText(chunks: seq<string>): string {
    if chunks == [] then ""
    else
      var last := chunks[|chunks| - 1];
      LogText(chunks[..|chunks| - 1]) + (if StartsWith(last, RosterMarker) then "" else last + "\n")
  }

  /** The chat log only grows, by exactly the non-roster pieces in arrival order. */
  lemma {:induction false} ShowAllLog(screen: Screen, chunks: seq<string>)
    ensures ShowAll(screen, chunks).log == screen.log + LogText(chunks)
  {
    if chunks != [] {
      ShowAllLog(screen, chunks[..|chunks| - 1]);
      DispatchByRosterPrefix(chunks[|chunks| - 1]);
    }
  }

  /** The roster widget shows the latest roster received, or its old text if none came. */
  lemma {:induction false} ShowAllRoster(screen: Screen, chunks: seq<string>, k: nat)
    requires k < |chunks| && StartsWith(chunks[k], RosterMarker)
    requires forall j :: k < j < |chunks| ==> !StartsWith(chunks[j], RosterMarker)
    ensures ShowAll(screen, chunks).roster == chunks[k] + "\n"
  {
    var init := chunks[..|chunks| - 1];
    DispatchByRosterPrefix(chunks[|chunks| - 1]);
    if k < |chunks| - 1 {
      ShowAllRoster(screen, init, k);
    }
  }

  /** The client's connection state: the current writer, what was written on it, and the
      writers that have been closed. */
  class Session {
    var username: string
    var writer: Option<ChatServer.ConnId>
    var sent: seq<string>
    var closed: set<ChatServer.ConnId>
    /** The roster widget and the chat log. */
    var screen: Screen

    constructor ()
      ensures username == "" && writer == None && sent == [] && closed == {} && screen == Screen("", "")
    {
      username := "";
      writer := None;
      sent := [];
      closed := {};
      screen := Screen("", "");
    }

    /** `register_client`: open a connection, then write the username line and the room line. */
    method Register(conn: ChatServer.ConnId, name: string, room: string)
      modifies this
      ensures writer == Some(conn) && username == name
      ensures sent == RegistrationLines(name, room)
      ensures closed == old(closed) && screen == old(screen)
    {
      username := name;
      writer := Some(conn);
      sent := [];
      sent := sent + [name + "\n"];
      sent := sent + [room + "\n"];
    }

    /** `send_message` with the clock reading as a parameter; without a writer the call fails
        in the source and nothing is written. */
    method Send(message: string, timestamp: string)
      modifies this
      ensures sent == if old(writer).Some? then old(sent) + [ChatLine(username, timestamp, message)] else old(sent)
      ensures writer == old(writer) && username == old(username) && closed == old(closed) && screen == old(screen)
    {
      if writer.Some? {
        sent := sent + [ChatLine(username, timestamp, message)];
      }
    }

    /** `disconnect_client`: close the writer only if there is one. */
    method Disconnect()
      modifies this
      ensures closed == if old(writer).Some? then old(closed) + {old(writer).value} else old(closed)
      ensures writer == old(writer) && sent == old(sent) && username == old(username) && screen == old(screen)
    {
      if writer.Some? {
        closed := closed + {writer.value};
      }
    }

    /** The `while True` loop of `get_messages`: each piece read is routed until an empty read. */
    method GetMessages(chunks: seq<string>) returns (consumed: nat)
      modifies this
      ensures consumed <= |chunks| && (consumed == |chunks| || chunks[consumed] == "")
      ensures forall i :: 0 <= i < consumed ==> chunks[i] != ""
      ensures screen == ShowAll(old(screen), chunks[..consumed])
      ensures writer == old(writer) && sent == old(sent) && username == old(username) && closed == old(closed)
    {
      consumed := 0;
      while consumed < |chunks| && |chunks[consumed]| > 0
        invariant consumed <= |chunks|
        invariant forall i :: 0 <= i < consumed ==> chunks[i] != ""
        invariant screen == ShowAll(old(screen), chunks[..consumed])
        invariant writer == old(writer) && sent == old(sent) && username == old(username) && closed == old(closed)
      {
        var chunk := chunks[consumed];
        if StartsWith(chunk, RosterMarker) {
          screen := screen.(roster := chunk + "\n");
        } else if Contains(chunk, JoinMarker) || Contains(chunk, LeaveMarker) {
          screen := screen.(log := screen.log + chunk + "\n");
        } else {
          screen := screen.(log := screen.log + chunk + "\n");
        }
        assert chunks[..consumed + 1][..consumed] == chunks[..consumed];
        consumed := consumed + 1;
      }
    }
  }
}
