/** The multi-game master client (backend/src/master.rs): the three game
    families and their protocol tokens, the request packets built into
    zero-filled fixed arrays, the directory and info queries, and
    `get_servers_full`, which keeps every directory server whose info query
    did not fail.

    The packet builders copy the command with `for i in 4..command.len()`,
    writing `command[i - 4]`; the last four bytes of every command therefore
    never reach the wire. The model keeps that behaviour. */
module Master {
  import opened Bytes
  import opened Wire

  datatype Game = IW4 | IW6 | S1

  /** `Display for Game`: the short name used for the cache files and the
      records' `game` field. */
  function GameName(game: Game): (name: string)
    ensures IsAscii(name) && 3 <= |name| <= 4
  {
    match game
    case IW4 => "iw4x"
    case IW6 => "iw6x"
    case S1 => "s1x"
  }

  /** The game and protocol number sent to the directory server. */
  function GameToken(game: Game): (token: string)
    ensures IsAscii(token) && 4 <= |token| <= 7
  {
    match game
    case IW4 => "IW4 150"
    case IW6 => "IW6 1"
    case S1 => "S1 1"
  }

  /** No two games share a name or a token, so neither the cache files nor
      the directory queries of two games can collide. */
  lemma GamesDistinct(g: Game, h: Game)
    ensures GameName(g) == GameName(h) <==> g == h
    ensures GameToken(g) == GameToken(h) <==> g == h
  {
  }

  const DirectoryCapacity: nat := 64
  const InfoCapacity: nat := 20

  /** `"getservers\n"`, the game token and the `" full empty"` filters. */
  function DirectoryCommand(game: Game): (command: seq<byte>)
    ensures 26 <= |command| <= 29
  {
    Ascii("getservers\n") + Ascii(GameToken(game)) + Ascii(" full empty")
  }

  /** The challenge `utils::random_string(12)` draws: twelve ASCII characters. */
  type Challenge = s: string | |s| == 12 && IsAscii(s) witness "000000000000"

  /** `"getinfo "` and the challenge. */
  function InfoCommand(challenge: Challenge): (command: seq<byte>)
    ensures |command| == 20
  {
    Ascii("getinfo ") + Ascii(challenge)
  }

  /** The packet the builders leave in their zero-initialised array of
      `capacity` bytes: 0xFF at positions 0 to 3, `command[i - 4]` at each
      position 4 <= i < |command|, zero everywhere else. */
  function Frame(command: seq<byte>, capacity: nat): (packet: seq<byte>)
    requires 4 <= capacity && |command| <= capacity
  {
    seq(capacity, i requires 0 <= i < capacity =>
      if i < 4 then 0xFF else if i < |command| then command[i - 4] else 0)
  }

  /** The builders fill their array byte by byte, marker first, then the
      command bytes from position 4 up to the command's length. */
  method FillPacket(command: seq<byte>, capacity: nat) returns (packet: seq<byte>)
    requires 4 <= capacity && |command| <= capacity
    ensures packet == Frame(command, capacity)
  {
    var buffer := new byte[capacity](_ => 0);
    var j := 0;
    while j < 4
      invariant j <= 4
      invariant forall k :: 0 <= k < capacity ==> buffer[k] == if k < j then 0xFF else 0
    {
      buffer[j] := 0xFF;
      j := j + 1;
    }
    var i := 4;
    while i < |command|
      invariant 4 <= i <= capacity && (i <= |command| || i == 4)
      invariant forall k :: 0 <= k < capacity ==>
        buffer[k] == if k < 4 then 0xFF else if k < i then command[k - 4] else 0
    {
      buffer[i] := command[i - 4];
      i := i + 1;
    }
    packet := buffer[..];
  }

  /** What the frame holds: the marker, the command without its last four
      bytes, and zero padding up to the capacity. */
  lemma FrameDropsCommandTail(command: seq<byte>, capacity: nat)
    requires 4 <= |command| <= capacity
    ensures Frame(command, capacity) == Marker + command[..|command| - 4] + Zeros(capacity - |command|)
  {
    var f := Frame(command, capacity);
    var g := Marker + command[..|command| - 4] + Zeros(capacity - |command|);
    assert |f| == |g|;
    forall k | 0 <= k < capacity ensures f[k] == g[k] {
      if k < 4 {
      } else if k < |command| {
        assert g[k] == command[..|command| - 4][k - 4];
      } else {
        assert g[k] == Zeros(capacity - |command|)[k - |command|];
      }
    }
  }

  /** The directory request of `get_servers`. */
  method DirectoryRequest(game: Game) returns (packet: seq<byte>)
    ensures packet == Frame(DirectoryCommand(game), DirectoryCapacity)
  {
    var command := DirectoryCommand(game);
    packet := FillPacket(command, DirectoryCapacity);
  }

  /** On the wire the directory request is 64 bytes: the marker,
      `"getservers\n"`, the token and `" full e"`, then zeros; the last four
      command bytes `"mpty"` are never sent. */
  lemma DirectoryRequestOnWire(game: Game)
    ensures |Frame(DirectoryCommand(game), DirectoryCapacity)| == 64
    ensures Frame(DirectoryCommand(game), DirectoryCapacity)
      == Marker + Ascii("getservers\n") + Ascii(GameToken(game)) + Ascii(" full e")
        + Zeros(64 - |DirectoryCommand(game)|)
    ensures DirectoryCommand(game)[|DirectoryCommand(game)| - 4..] == Ascii("mpty")
  {
    DirectoryFrame(GameToken(game));
  }

  /** `DirectoryRequestOnWire` for any ASCII token. */
  lemma DirectoryFrame(token: string)
    requires IsAscii(token) && |token| <= 7
    ensures var command := Ascii("getservers\n") + Ascii(token) + Ascii(" full empty");
      && Frame(command, DirectoryCapacity)
           == Marker + Ascii("getservers\n") + Ascii(token) + Ascii(" full e") + Zeros(64 - |command|)
      && command[|command| - 4..] == Ascii("mpty")
  {
    var command := Ascii("getservers\n") + Ascii(token) + Ascii(" full empty");
    var kept := Ascii("getservers\n") + Ascii(token) + Ascii(" full e");
    assert Ascii(" full empty") == Ascii(" full e") + Ascii("mpty") by {
      AsciiAppend(" full e", "mpty");
      assert " full e" + "mpty" == " full empty";
    }
    assert command == kept + Ascii("mpty");
    assert command[..|command| - 4] == kept;
    assert command[|command| - 4..] == Ascii("mpty");
    FrameDropsCommandTail(command, DirectoryCapacity);
  }

  /** The info request of `get_server_info`. */
  method InfoRequest(challenge: Challenge) returns (packet: seq<byte>)
    ensures packet == Frame(InfoCommand(challenge), InfoCapacity)
  {
    var command := InfoCommand(challenge);
    packet := FillPacket(command, InfoCapacity);
  }

  /** On the wire the info request is 20 bytes: the marker, `"getinfo "` and
      only the first eight of the twelve challenge characters. */
  lemma InfoRequestOnWire(challenge: Challenge)
    ensures Frame(InfoCommand(challenge), InfoCapacity) == Marker + Ascii("getinfo ") + Ascii(challenge[..8])
  {
    var command := InfoCommand(challenge);
    FrameDropsCommandTail(command, InfoCapacity);
    assert Ascii(challenge) == Ascii(challenge[..8]) + Ascii(challenge[8..]) by {
      AsciiAppend(challenge[..8], challenge[8..]);
      assert challenge[..8] + challenge[8..] == challenge;
    }
    assert command[..16] == Ascii("getinfo ") + Ascii(challenge[..8]);
    assert Zeros(0) == [];
  }

  /** Challenges that agree on their first eight characters give the same
      request: the rest of the challenge cannot influence the exchange. */
  lemma InfoRequestIgnoresChallengeTail(c1: Challenge, c2: Challenge)
    requires c1[..8] == c2[..8]
    ensures Frame(InfoCommand(c1), InfoCapacity) == Frame(InfoCommand(c2), InfoCapacity)
  {
    InfoRequestOnWire(c1);
    InfoRequestOnWire(c2);
  }

  // ---------------------------------------------------------------------
  // Queries
  // ---------------------------------------------------------------------

  /** The directory reply `get_servers` parses for `game`. */
  function QueryServers(game: Game, network: Network): ServerListSegments {
    ServerList(Receive(network(MasterAddress, Frame(DirectoryCommand(game), DirectoryCapacity))).buffer)
  }

  /** `get_servers`: build the request, exchange it with the directory
      server, parse the whole receive buffer. The transport's error flag is
      not consulted: an empty buffer fails the header check. */
  method GetServers(game: Game, network: Network) returns (segments: ServerListSegments)
    ensures segments == QueryServers(game, network)
  {
    var packet := DirectoryRequest(game);
    var response := Receive(network(MasterAddress, packet));
    segments := ParseServerList(response.buffer);
  }

  /** The info result `get_server_info` produces for `server`. */
  function QueryInfo(server: Server, network: Network, challenge: Challenge): Outcome<Info> {
    InfoOf(Receive(network(ServerText(server), Frame(InfoCommand(challenge), InfoCapacity))))
  }

  /** `get_server_info`: build the request, exchange it with the server at
      "ip:port", and read the reply. */
  method GetServerInfo(server: Server, network: Network, challenge: Challenge) returns (info: Outcome<Info>)
    ensures info == QueryInfo(server, network, challenge)
  {
    var packet := InfoRequest(challenge);
    var response := Receive(network(ServerText(server), packet));
    info := ReadInfo(response);
  }

  /** `FullServer`: one output record. */
  datatype FullServer = FullServer(game: string, ip: Ipv4, port: u16, codInfo: seq<byte>)

  /** The info result of every directory server, the `i`-th queried with the
      `i`-th random challenge. */
  function InfoResults(servers: seq<Server>, network: Network, challenges: nat -> Challenge): (infos: seq<Outcome<Info>>)
    ensures |infos| == |servers|
  {
    seq(|servers|, i requires 0 <= i < |servers| => QueryInfo(servers[i], network, challenges(i)))
  }

  lemma InfoAt(servers: seq<Server>, network: Network, challenges: nat -> Challenge, i: nat)
    requires i < |servers|
    ensures InfoResults(servers, network, challenges)[i] == QueryInfo(servers[i], network, challenges(i))
  {
  }

  function Records(name: string, kept: seq<(Server, seq<byte>)>): (records: seq<FullServer>)
    ensures |records| == |kept|
  {
    seq(|kept|, i requires 0 <= i < |kept| => FullServer(name, kept[i].0.ip, kept[i].0.port, kept[i].1))
  }

  lemma RecordsAppend(name: string, kept: seq<(Server, seq<byte>)>, server: Server, text: seq<byte>)
    ensures Records(name, kept + [(server, text)])
      == Records(name, kept) + [FullServer(name, server.ip, server.port, text)]
  {
  }

  /** The result of `get_servers_full` for `game`. */
  function ServersFull(game: Game, network: Network, challenges: nat -> Challenge): Outcome<seq<FullServer>> {
    var servers := QueryServers(game, network).servers;
    match Responsive(servers, InfoResults(servers, network, challenges))
    case Panicked => Panicked
    case Done(kept) => Done(Records(GameName(game), kept))
  }

  /** `get_servers_full`: query the directory, then every server in turn,
      pushing a record for each info result without error. */
  method GetServersFull(game: Game, network: Network, challenges: nat -> Challenge)
    returns (result: Outcome<seq<FullServer>>)
    ensures result == ServersFull(game, network, challenges)
  {
    var list: seq<FullServer> := [];
    var name := GameName(game);
    var masterServers := GetServers(game, network);
    var servers := masterServers.servers;
    ghost var infos := InfoResults(servers, network, challenges);
    ghost var kept: seq<(Server, seq<byte>)> := [];
    var i := 0;
    while i < |servers|
      invariant i <= |servers|
      invariant Responsive(servers[..i], infos[..i]) == Done(kept)
      invariant list == Records(name, kept)
    {
      var info := GetServerInfo(servers[i], network, challenges(i));
      InfoAt(servers, network, challenges, i);
      ResponsiveStep(servers, infos, i);
      if info.Panicked? {
        ResponsivePanicSticks(servers, infos, i + 1);
        FullOutcome(game, network, challenges);
        return Panicked;
      }
      if !info.value.error {
        RecordsAppend(name, kept, servers[i], info.value.text);
        list := list + [FullServer(name, servers[i].ip, servers[i].port, info.value.text)];
        kept := kept + [(servers[i], info.value.text)];
      }
      i := i + 1;
    }
    assert servers[..i] == servers && infos[..i] == infos;
    FullOutcome(game, network, challenges);
    result := Done(list);
  }

  /** `ServersFull` in terms of the aggregation of the info results. */
  lemma FullOutcome(game: Game, network: Network, challenges: nat -> Challenge)
    ensures var servers := QueryServers(game, network).servers;
      var outcome := Responsive(servers, InfoResults(servers, network, challenges));
      && (outcome.Panicked? ==> ServersFull(game, network, challenges) == Panicked)
      && (outcome.Done? ==> ServersFull(game, network, challenges) == Done(Records(GameName(game), outcome.value)))
  {
  }

  /** `get_servers_full` panics exactly when some info reply is not UTF-8.
      Otherwise it returns one record per server whose info query succeeded,
      never more than the directory listed: the record of the successful
      query at position `i`, tagged with the game's name and carrying that
      server and its text, sits at position `Succeeded(infos[..i])`, and
      every record is the one of such a query. So each answering server is
      listed once, in directory order. */
  lemma ServersFullMeaning(game: Game, network: Network, challenges: nat -> Challenge)
    ensures var servers := QueryServers(game, network).servers;
      var infos := InfoResults(servers, network, challenges);
      && (ServersFull(game, network, challenges).Panicked? <==> exists i :: 0 <= i < |infos| && infos[i].Panicked?)
      && (ServersFull(game, network, challenges).Done? ==>
        var list := ServersFull(game, network, challenges).value;
        && |list| == Succeeded(infos) <= |servers|
        && (forall i :: SucceededAt(infos, i) ==>
              && Succeeded(infos[..i]) < |list|
              && list[Succeeded(infos[..i])]
                   == FullServer(GameName(game), servers[i].ip, servers[i].port, infos[i].value.text))
        && (forall k :: 0 <= k < |list| ==>
              && list[k].game == GameName(game)
              && KeptFrom(servers, infos, k, (Server(list[k].ip, list[k].port), list[k].codInfo))))
  {
    var servers := QueryServers(game, network).servers;
    KeptRecords(GameName(game), servers, InfoResults(servers, network, challenges));
  }

  /** `ServersFullMeaning` for any directory list and info results. */
  lemma KeptRecords(name: string, servers: seq<Server>, infos: seq<Outcome<Info>>)
    requires |infos| == |servers|
    ensures Responsive(servers, infos).Panicked? <==> exists i :: 0 <= i < |infos| && infos[i].Panicked?
    ensures Responsive(servers, infos).Done? ==>
      var list := Records(name, Responsive(servers, infos).value);
      && |list| == Succeeded(infos) <= |servers|
      && (forall i :: SucceededAt(infos, i) ==>
            && Succeeded(infos[..i]) < |list|
            && list[Succeeded(infos[..i])] == FullServer(name, servers[i].ip, servers[i].port, infos[i].value.text))
      && (forall k :: 0 <= k < |list| ==>
            && list[k].game == name
            && KeptFrom(servers, infos, k, (Server(list[k].ip, list[k].port), list[k].codInfo)))
  {
    ResponsiveMeaning(servers, infos);
    var outcome := Responsive(servers, infos);
    if outcome.Done? {
      var list := Records(name, outcome.value);
      forall k | 0 <= k < |list|
        ensures KeptFrom(servers, infos, k, (Server(list[k].ip, list[k].port), list[k].codInfo))
      {
        assert outcome.value[k] == (Server(list[k].ip, list[k].port), list[k].codInfo);
      }
    }
  }

  /** A directory query that gets no reply yields an empty result for that
      game, without any info query. */
  lemma DirectoryTimeoutYieldsNothing(game: Game, network: Network, challenges: nat -> Challenge)
    requires network(MasterAddress, Frame(DirectoryCommand(game), DirectoryCapacity)).None?
    ensures QueryServers(game, network).servers == []
    ensures ServersFull(game, network, challenges) == Done([])
  {
    var buffer := Zeros(BufferSize);
    assert buffer[0] == 0;
    assert HeaderLength(buffer) == 0;
  }

  /** End to end: when the directory server answers the request for `game`
      with a well-formed list and every listed server answers its info
      request with a well-formed reply, the result holds every listed
      server, in directory order, with the game's name and its text. */
  lemma HealthyNetworkListsEveryone(game: Game, network: Network, challenges: nat -> Challenge,
                                    command: seq<byte>, servers: seq<Server>,
                                    echoes: seq<seq<byte>>, texts: seq<seq<byte>>)
    requires network(MasterAddress, Frame(DirectoryCommand(game), DirectoryCapacity)).Some?
    requires DirectoryReply(network(MasterAddress, Frame(DirectoryCommand(game), DirectoryCapacity)).value, command, servers)
    requires |echoes| == |texts| == |servers|
    requires forall i :: 0 <= i < |servers| ==>
      network(ServerText(servers[i]), Frame(InfoCommand(challenges(i)), InfoCapacity))
        == Some(Marker + echoes[i] + [Delimiter] + texts[i])
    requires forall i :: 0 <= i < |servers| ==>
      InfoReply(Marker + echoes[i] + [Delimiter] + texts[i], echoes[i], texts[i])
    ensures ServersFull(game, network, challenges).Done?
    ensures |ServersFull(game, network, challenges).value| == |servers|
    ensures forall i :: 0 <= i < |servers| ==>
      ServersFull(game, network, challenges).value[i]
        == FullServer(GameName(game), servers[i].ip, servers[i].port, texts[i])
  {
    var request := Frame(DirectoryCommand(game), DirectoryCapacity);
    ReceiveDirectoryReply(network(MasterAddress, request).value, command, servers);
    var infos := InfoResults(servers, network, challenges);
    forall i | 0 <= i < |servers|
      ensures infos[i] == Done(Info(false, texts[i]))
    {
      ReceiveInfoReply(Marker + echoes[i] + [Delimiter] + texts[i], echoes[i], texts[i]);
    }
    ResponsiveKeepsAll(servers, infos);
  }
}
