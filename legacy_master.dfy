/** The older single-game master client (src/master.rs): it sends two
    literal request packets, IW4's directory query in full and a bare
    `getinfo` without challenge, parses the replies with the same loops as
    the multi-game client, and its records carry no game name. */
module LegacyMaster {
  import opened Bytes
  import opened Wire
  import Master

  /** The literal directory request: the marker and the whole IW4 command. */
  const DirectoryRequest: seq<byte> := Marker + Ascii("getservers\nIW4 150 full empty")

  /** The literal info request: the marker and `getinfo`, no challenge. */
  const InfoRequest: seq<byte> := Marker + Ascii("getinfo")

  /** The literal directory request is the IW4 command sent whole: all 33
      bytes, filters included. */
  lemma DirectoryRequestSentWhole()
    ensures DirectoryRequest == Marker + Master.DirectoryCommand(Master.IW4)
    ensures |DirectoryRequest| == 33
    ensures DirectoryRequest[29..] == Ascii("mpty")
  {
    LiteralCommand();
    var command := Master.DirectoryCommand(Master.IW4);
    Master.DirectoryFrame("IW4 150");
    assert DirectoryRequest[29..] == command[25..];
  }

  /** The literal command text is IW4's directory command. */
  lemma LiteralCommand()
    ensures DirectoryRequest == Marker + Master.DirectoryCommand(Master.IW4)
  {
    LiteralHead();
    LiteralWhole();
  }

  lemma LiteralHead()
    ensures Ascii("getservers\nIW4 150") == Ascii("getservers\n") + Ascii("IW4 150")
  {
    AsciiAppend("getservers\n", "IW4 150");
    assert "getservers\n" + "IW4 150" == "getservers\nIW4 150";
  }

  lemma LiteralWhole()
    ensures Ascii("getservers\nIW4 150 full empty") == Ascii("getservers\nIW4 150") + Ascii(" full empty")
  {
    AsciiAppend("getservers\nIW4 150", " full empty");
    assert "getservers\nIW4 150" + " full empty" == "getservers\nIW4 150 full empty";
  }

  /** The multi-game client's IW4 request agrees with the literal one on the
      first 29 bytes and then sends zeros where the literal sends "mpty". */
  lemma BackendDirectoryRequestLosesTail()
    ensures |Master.Frame(Master.DirectoryCommand(Master.IW4), Master.DirectoryCapacity)| == 64
    ensures Master.Frame(Master.DirectoryCommand(Master.IW4), Master.DirectoryCapacity)[..29] == DirectoryRequest[..29]
    ensures Master.Frame(Master.DirectoryCommand(Master.IW4), Master.DirectoryCapacity)[29..33] == Zeros(4)
    ensures Master.Frame(Master.DirectoryCommand(Master.IW4), Master.DirectoryCapacity)[29..33] != DirectoryRequest[29..33]
  {
    DirectoryRequestSentWhole();
    var command := Master.DirectoryCommand(Master.IW4);
    Master.FrameDropsCommandTail(command, Master.DirectoryCapacity);
    var frame := Master.Frame(command, Master.DirectoryCapacity);
    assert frame[..29] == Marker + command[..25];
    assert DirectoryRequest[..29] == Marker + command[..25];
    assert frame[29..33] == Zeros(4);
    assert DirectoryRequest[29] == 'm' as int as byte;
  }

  /** The literal info request is 11 bytes and is what the multi-game
      client's request starts with, before the space and the challenge. */
  lemma InfoRequestHasNoChallenge(challenge: Master.Challenge)
    ensures |InfoRequest| == 11
    ensures Master.Frame(Master.InfoCommand(challenge), Master.InfoCapacity)[..11] == InfoRequest
  {
    Master.InfoRequestOnWire(challenge);
    AsciiAppend("getinfo", " ");
    assert "getinfo" + " " == "getinfo ";
  }

  // ---------------------------------------------------------------------
  // Queries
  // ---------------------------------------------------------------------

  /** The directory reply `get_servers` parses. */
  function QueryServers(network: Network): ServerListSegments {
    ServerList(Receive(network(MasterAddress, DirectoryRequest)).buffer)
  }

  /** `get_servers`: exchange the literal request with the directory server
      and parse the whole receive buffer. */
  method GetServers(network: Network) returns (segments: ServerListSegments)
    ensures segments == QueryServers(network)
  {
    var response := Receive(network(MasterAddress, DirectoryRequest));
    segments := ParseServerList(response.buffer);
  }

  /** The info result `get_server_info` produces for `server`. */
  function QueryInfo(server: Server, network: Network): Outcome<Info> {
    InfoOf(Receive(network(ServerText(server), InfoRequest)))
  }

  /** `get_server_info`: exchange the literal request with "ip:port" and
      read the reply. */
  method GetServerInfo(server: Server, network: Network) returns (info: Outcome<Info>)
    ensures info == QueryInfo(server, network)
  {
    var response := Receive(network(ServerText(server), InfoRequest));
    info := ReadInfo(response);
  }

  /** `FullServer` of this client: no game field. */
  datatype FullServer = FullServer(ip: Ipv4, port: u16, codInfo: seq<byte>)

  function InfoResults(servers: seq<Server>, network: Network): (infos: seq<Outcome<Info>>)
    ensures |infos| == |servers|
  {
    seq(|servers|, i requires 0 <= i < |servers| => QueryInfo(servers[i], network))
  }

  lemma InfoAt(servers: seq<Server>, network: Network, i: nat)
    requires i < |servers|
    ensures InfoResults(servers, network)[i] == QueryInfo(servers[i], network)
  {
  }

  function Records(kept: seq<(Server, seq<byte>)>): (records: seq<FullServer>)
    ensures |records| == |kept|
  {
    seq(|kept|, i requires 0 <= i < |kept| => FullServer(kept[i].0.ip, kept[i].0.port, kept[i].1))
  }

  lemma RecordsAppend(kept: seq<(Server, seq<byte>)>, server: Server, text: seq<byte>)
    ensures Records(kept + [(server, text)]) == Records(kept) + [FullServer(server.ip, server.port, text)]
  {
  }

  /** The result of `get_servers_full`. */
  function ServersFull(network: Network): Outcome<seq<FullServer>> {
    var servers := QueryServers(network).servers;
    match Responsive(servers, InfoResults(servers, network))
    case Panicked => Panicked
    case Done(kept) => Done(Records(kept))
  }

  /** `get_servers_full`: query the directory, then every server in turn,
      pushing a record for each info result without error. */
  method GetServersFull(network: Network) returns (result: Outcome<seq<FullServer>>)
    ensures result == ServersFull(network)
  {
    var list: seq<FullServer> := [];
    var masterServers := GetServers(network);
    var servers := masterServers.servers;
    ghost var infos := InfoResults(servers, network);
    ghost var kept: seq<(Server, seq<byte>)> := [];
    var i := 0;
    while i < |servers|
      invariant i <= |servers|
      invariant Responsive(servers[..i], infos[..i]) == Done(kept)
      invariant list == Records(kept)
    {
      var info := GetServerInfo(servers[i], network);
      InfoAt(servers, network, i);
      ResponsiveStep(servers, infos, i);
      if info.Panicked? {
        ResponsivePanicSticks(servers, infos, i + 1);
        return Panicked;
      }
      if !info.value.error {
        RecordsAppend(kept, servers[i], info.value.text);
        list := list + [FullServer(servers[i].ip, servers[i].port, info.value.text)];
        kept := kept + [(servers[i], info.value.text)];
      }
      i := i + 1;
    }
    assert servers[..i] == servers && infos[..i] == infos;
    result := Done(list);
  }

  /** `get_servers_full` panics exactly when some info reply is not UTF-8.
      Otherwise it returns one record per server whose info query succeeded,
      never more than the directory listed: the record of the successful
      query at position `i`, carrying that server and its text, sits at
      position `Succeeded(infos[..i])`, and every record is the one of such
      a query. So each answering server is listed once, in directory order. */
  lemma ServersFullMeaning(network: Network)
    ensures var servers := QueryServers(network).servers;
      var infos := InfoResults(servers, network);
      && (ServersFull(network).Panicked? <==> exists i :: 0 <= i < |infos| && infos[i].Panicked?)
      && (ServersFull(network).Done? ==>
        var list := ServersFull(network).value;
        && |list| == Succeeded(infos) <= |servers|
        && (forall i :: SucceededAt(infos, i) ==>
              && Succeeded(infos[..i]) < |list|
              && list[Succeeded(infos[..i])] == FullServer(servers[i].ip, servers[i].port, infos[i].value.text))
        && (forall k :: 0 <= k < |list| ==>
              KeptFrom(servers, infos, k, (Server(list[k].ip, list[k].port), list[k].codInfo))))
  {
    var servers := QueryServers(network).servers;
    KeptRecords(servers, InfoResults(servers, network));
  }

  /** `ServersFullMeaning` for any directory list and info results. */
  lemma KeptRecords(servers: seq<Server>, infos: seq<Outcome<Info>>)
    requires |infos| == |servers|
    ensures Responsive(servers, infos).Panicked? <==> exists i :: 0 <= i < |infos| && infos[i].Panicked?
    ensures Responsive(servers, infos).Done? ==>
      var list := Records(Responsive(servers, infos).value);
      && |list| == Succeeded(infos) <= |servers|
      && (forall i :: SucceededAt(infos, i) ==>
            && Succeeded(infos[..i]) < |list|
            && list[Succeeded(infos[..i])] == FullServer(servers[i].ip, servers[i].port, infos[i].value.text))
      && (forall k :: 0 <= k < |list| ==>
            KeptFrom(servers, infos, k, (Server(list[k].ip, list[k].port), list[k].codInfo)))
  {
    ResponsiveMeaning(servers, infos);
    var outcome := Responsive(servers, infos);
    if outcome.Done? {
      var list := Records(outcome.value);
      forall k | 0 <= k < |list|
        ensures KeptFrom(servers, infos, k, (Server(list[k].ip, list[k].port), list[k].codInfo))
      {
        assert outcome.value[k] == (Server(list[k].ip, list[k].port), list[k].codInfo);
      }
    }
  }

  /** If every listed server answers its info query, every one of them is
      in the result, in directory order, with its text. */
  lemma AllAnswerAllKept(network: Network)
    requires var servers := QueryServers(network).servers;
      forall i :: 0 <= i < |servers| ==>
        QueryInfo(servers[i], network).Done? && !QueryInfo(servers[i], network).value.error
    ensures var servers := QueryServers(network).servers;
      && ServersFull(network).Done?
      && |ServersFull(network).value| == |servers|
      && forall i :: 0 <= i < |servers| ==>
           ServersFull(network).value[i]
             == FullServer(servers[i].ip, servers[i].port, QueryInfo(servers[i], network).value.text)
  {
    var servers := QueryServers(network).servers;
    ResponsiveKeepsAll(servers, InfoResults(servers, network));
  }

  /** A directory query that gets no reply yields an empty result, without
      any info query. */
  lemma DirectoryTimeoutYieldsNothing(network: Network)
    requires network(MasterAddress, DirectoryRequest).None?
    ensures QueryServers(network).servers == []
    ensures ServersFull(network) == Done([])
  {
    var buffer := Zeros(BufferSize);
    assert buffer[0] == 0;
    assert HeaderLength(buffer) == 0;
  }

  /** End to end: when the directory server answers with a well-formed list
      and every listed server answers with a well-formed info reply, the
      result holds every listed server, in directory order, with its text. */
  lemma HealthyNetworkListsEveryone(network: Network, command: seq<byte>, servers: seq<Server>,
                                    echoes: seq<seq<byte>>, texts: seq<seq<byte>>)
    requires network(MasterAddress, DirectoryRequest).Some?
    requires DirectoryReply(network(MasterAddress, DirectoryRequest).value, command, servers)
    requires |echoes| == |texts| == |servers|
    requires forall i :: 0 <= i < |servers| ==>
      network(ServerText(servers[i]), InfoRequest) == Some(Marker + echoes[i] + [Delimiter] + texts[i])
    requires forall i :: 0 <= i < |servers| ==>
      InfoReply(Marker + echoes[i] + [Delimiter] + texts[i], echoes[i], texts[i])
    ensures ServersFull(network).Done?
    ensures |ServersFull(network).value| == |servers|
    ensures forall i :: 0 <= i < |servers| ==>
      ServersFull(network).value[i] == FullServer(servers[i].ip, servers[i].port, texts[i])
  {
    ReceiveDirectoryReply(network(MasterAddress, DirectoryRequest).value, command, servers);
    forall i | 0 <= i < |servers|
      ensures QueryInfo(servers[i], network) == Done(Info(false, texts[i]))
    {
      ReceiveInfoReply(Marker + echoes[i] + [Delimiter] + texts[i], echoes[i], texts[i]);
    }
    AllAnswerAllKept(network);
  }
}
