/** The scaling panel: a list of server nodes, numbered from 1, shown twice.
    With sessions only server 1 holds the user's data; with tokens every
    server can check the signature itself. */
module TabConcept {
  /** The most servers the panel adds. */
  const MaxServers: nat := 4

  /** The ids `1, 2, ..., n`. */
  function Ids(n: nat): (ids: seq<int>)
    ensures |ids| == n
    ensures forall i :: 0 <= i < n ==> ids[i] == i + 1
  {
    seq(n, i => i + 1)
  }

  /** Ids in such a list are increasing, hence distinct. */
  lemma IdsIncreasing(n: nat, i: nat, j: nat)
    requires i < j < n
    ensures Ids(n)[i] < Ids(n)[j]
  {
  }

  /** The caption under each server in the session column. */
  function SessionStatus(id: int): string {
    if id == 1 then "Data Found" else "Missing Data"
  }

  /** The caption under each server in the token column. */
  function TokenStatus(id: int): string {
    "Valid Sig"
  }

  /** How many of the servers show `status` in the session column. */
  function SessionCount(servers: seq<int>, status: string): (k: nat)
    ensures k <= |servers|
    decreases |servers|
  {
    if servers == [] then 0
    else SessionCount(servers[..|servers| - 1], status) + (if SessionStatus(servers[|servers| - 1]) == status then 1 else 0)
  }

  /** How many of the servers show `status` in the token column. */
  function TokenCount(servers: seq<int>, status: string): (k: nat)
    ensures k <= |servers|
    decreases |servers|
  {
    if servers == [] then 0
    else TokenCount(servers[..|servers| - 1], status) + (if TokenStatus(servers[|servers| - 1]) == status then 1 else 0)
  }

  /** With sessions exactly one server, the first, finds the user's data;
      the others miss it. */
  lemma {:induction false} SessionFoundOnce(n: nat)
    requires n >= 1
    ensures SessionCount(Ids(n), "Data Found") == 1
    ensures SessionCount(Ids(n), "Missing Data") == n - 1
    decreases n
  {
    if n > 1 {
      assert Ids(n)[..n - 1] == Ids(n - 1);
      SessionFoundOnce(n - 1);
    } else {
      assert Ids(n)[..0] == [];
    }
  }

  /** With tokens every server accepts, however many there are. */
  lemma {:induction false} TokenAcceptedEverywhere(n: nat)
    ensures TokenCount(Ids(n), "Valid Sig") == n
    decreases n
  {
    if n > 0 {
      assert Ids(n)[..n - 1] == Ids(n - 1);
      TokenAcceptedEverywhere(n - 1);
    }
  }

  /** The server the warning caption says a request may be routed to. */
  function RoutedServer(servers: seq<int>): (id: int)
    ensures id == 1 || id == 2
  {
    if |servers| > 1 then 2 else 1
  }

  /** The server named in the caption is in the list, and it misses the
      session data exactly when there is more than one server. */
  lemma RoutedServerListed(n: nat)
    requires 1 <= n
    ensures RoutedServer(Ids(n)) in Ids(n)
    ensures SessionStatus(RoutedServer(Ids(n))) == "Missing Data" <==> n > 1
  {
    assert Ids(n)[RoutedServer(Ids(n)) - 1] == RoutedServer(Ids(n));
  }

  /** The panel's state: the list of servers shown. */
  class ServerList {
    var servers: seq<int>

    /** The list is always `1..n` for some `n` from 1 to 4. */
    predicate Valid()
      reads this
    {
      1 <= |servers| <= MaxServers && servers == Ids(|servers|)
    }

    constructor()
      ensures Valid() && servers == [1]
    {
      servers := [1];
    }

    /** Add the next server, unless there are already four. */
    method AddServer()
      modifies this
      requires Valid()
      ensures Valid()
      ensures |old(servers)| < MaxServers ==> servers == old(servers) + [|old(servers)| + 1]
      ensures |old(servers)| == MaxServers ==> servers == old(servers)
    {
      if |servers| < MaxServers {
        servers := servers + [|servers| + 1];
      }
    }

    /** Back to the single server. */
    method ResetServers()
      modifies this
      ensures Valid() && servers == [1]
    {
      servers := [1];
    }
  }

  /** Adding servers until the button is disabled gives four servers, of
      which one finds the session and all four accept the token. */
  method ScaleOut() returns (servers: seq<int>, sessionHits: nat, tokenHits: nat)
    ensures servers == [1, 2, 3, 4]
    ensures sessionHits == 1 && tokenHits == |servers|
  {
    var list := new ServerList();
    list.AddServer();
    list.AddServer();
    list.AddServer();
    list.AddServer();
    servers := list.servers;
    sessionHits := SessionCount(servers, "Data Found");
    tokenHits := TokenCount(servers, "Valid Sig");
    SessionFoundOnce(|servers|);
    TokenAcceptedEverywhere(|servers|);
  }
}
