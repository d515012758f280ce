/**
 * The input tables of the cache-content chooser, built from input lines
 * that are already split into integers: the latency table (one row per
 * cache plus a last row for the origin) and the request table.
 */
module CacheTables {

  /** Java's Integer.MAX_VALUE, the latency of a pair with no connection. */
  const IntMax: int := 0x7fff_ffff

  /** A connection line of an endpoint: a cache id and its latency. */
  datatype Link = Link(cache: int, latency: int)

  /** An endpoint's description: its latency to the origin and its
      connection lines, in input order. */
  datatype EndpointLine = EndpointLine(originLatency: int, links: seq<Link>)

  /** A request line: a video id, an endpoint id and a request count. */
  datatype RequestLine = RequestLine(video: int, endpoint: int, count: int)

  /** The latency recorded for row c from an endpoint's connection lines:
      the last line naming c wins; `absent` when no line names it. */
  function LinkLatency(links: seq<Link>, c: int, absent: int): int
  {
    if links == [] then absent
    else if links[|links| - 1].cache == c then links[|links| - 1].latency
    else LinkLatency(links[..|links| - 1], c, absent)
  }

  /** The latency row c of the table starts with for an endpoint, before
      its connection lines: the origin latency in row C, no connection in
      every other row. */
  function RowStart(c: int, C: int, origin: int): int
  {
    if c == C then origin else IntMax
  }

  /** The total count of the request lines for video v at endpoint e. */
  function Demand(reqs: seq<RequestLine>, e: int, v: int): int
  {
    if reqs == [] then 0
    else
      var last := reqs[|reqs| - 1];
      Demand(reqs[..|reqs| - 1], e, v) + (if last.endpoint == e && last.video == v then last.count else 0)
  }

  /** A cache that no connection line names keeps its start value. */
  lemma {:induction false} UnlinkedCacheUnreachable(links: seq<Link>, c: int, absent: int)
    requires forall j :: 0 <= j < |links| ==> links[j].cache != c
    ensures LinkLatency(links, c, absent) == absent
  {
    if links != [] {
      UnlinkedCacheUnreachable(links[..|links| - 1], c, absent);
    }
  }

  /** A cache named by line j and by no later line has that line's latency. */
  lemma {:induction false} LinkedCacheLatency(links: seq<Link>, j: nat, c: int, absent: int)
    requires j < |links| && links[j].cache == c
    requires forall k :: j < k < |links| ==> links[k].cache != c
    ensures LinkLatency(links, c, absent) == links[j].latency
  {
    if j < |links| - 1 {
      LinkedCacheLatency(links[..|links| - 1], j, c, absent);
    }
  }

  /** Request lines accumulate: the demand of two batches of lines is the
      sum of their demands. */
  lemma {:induction false} DemandConcat(r1: seq<RequestLine>, r2: seq<RequestLine>, e: int, v: int)
    ensures Demand(r1 + r2, e, v) == Demand(r1, e, v) + Demand(r2, e, v)
    decreases |r2|
  {
    if r2 != [] {
      assert (r1 + r2)[..|r1 + r2| - 1] == r1 + r2[..|r2| - 1];
      assert (r1 + r2)[|r1 + r2| - 1] == r2[|r2| - 1];
      DemandConcat(r1, r2[..|r2| - 1], e, v);
    } else {
      assert r1 + r2 == r1;
    }
  }

  /** With non-negative counts, the demand is never negative. */
  lemma {:induction false} DemandNonNegative(reqs: seq<RequestLine>, e: int, v: int)
    requires forall i :: 0 <= i < |reqs| ==> reqs[i].count >= 0
    ensures Demand(reqs, e, v) >= 0
  {
    if reqs != [] {
      DemandNonNegative(reqs[..|reqs| - 1], e, v);
    }
  }

  /** A pair no request line mentions has demand 0. */
  lemma {:induction false} UnrequestedDemand(reqs: seq<RequestLine>, e: int, v: int)
    requires forall i :: 0 <= i < |reqs| ==> reqs[i].endpoint != e || reqs[i].video != v
    ensures Demand(reqs, e, v) == 0
  {
    if reqs != [] {
      UnrequestedDemand(reqs[..|reqs| - 1], e, v);
    }
  }

  /** The rows of a table, as values. */
  function Rows(a: array2<int>): (r: seq<seq<int>>)
    reads a
    ensures |r| == a.Length0
    ensures forall i :: 0 <= i < a.Length0 ==> |r[i]| == a.Length1
    ensures forall i, j :: 0 <= i < a.Length0 && 0 <= j < a.Length1 ==> r[i][j] == a[i, j]
  {
    seq(a.Length0, i requires 0 <= i < a.Length0 reads a => seq(a.Length1, j requires 0 <= j < a.Length1 reads a => a[i, j]))
  }

  /** Builds the (C+1) x E latency table: every cell starts with no
      connection, then for each endpoint row C gets its origin latency and
      each connection line sets its cache's cell. */
  method BuildLatencies(C: nat, endpoints: seq<EndpointLine>) returns (lat: array2<int>)
    requires forall e, j :: 0 <= e < |endpoints| && 0 <= j < |endpoints[e].links| ==> 0 <= endpoints[e].links[j].cache <= C
    ensures lat.Length0 == C + 1 && lat.Length1 == |endpoints|
    ensures forall c, e :: 0 <= c <= C && 0 <= e < |endpoints| ==>
      lat[c, e] == LinkLatency(endpoints[e].links, c, RowStart(c, C, endpoints[e].originLatency))
  {
    var E := |endpoints|;
    lat := new int[C + 1, E]((_, _) => IntMax);
    for i := 0 to E
      invariant forall c, e :: 0 <= c <= C && 0 <= e < i ==>
        lat[c, e] == LinkLatency(endpoints[e].links, c, RowStart(c, C, endpoints[e].originLatency))
      invariant forall c, e :: 0 <= c <= C && i <= e < E ==> lat[c, e] == IntMax
    {
      var links := endpoints[i].links;
      lat[C, i] := endpoints[i].originLatency;
      for j := 0 to |links|
        invariant forall c, e :: 0 <= c <= C && 0 <= e < i ==>
          lat[c, e] == LinkLatency(endpoints[e].links, c, RowStart(c, C, endpoints[e].originLatency))
        invariant forall c, e :: 0 <= c <= C && i < e < E ==> lat[c, e] == IntMax
        invariant forall c :: 0 <= c <= C ==> lat[c, i] == LinkLatency(links[..j], c, RowStart(c, C, endpoints[i].originLatency))
      {
        assert links[..j + 1][..j] == links[..j];
        lat[links[j].cache, i] := links[j].latency;
      }
      assert links[..|links|] == links;
    }
  }

  /** Builds the E x V request table: every cell starts at 0 and each
      request line adds its count to its (endpoint, video) cell. */
  method BuildRequests(V: nat, E: nat, reqs: seq<RequestLine>) returns (req: array2<int>)
    requires forall i :: 0 <= i < |reqs| ==> 0 <= reqs[i].endpoint < E && 0 <= reqs[i].video < V
    ensures req.Length0 == E && req.Length1 == V
    ensures forall e, v :: 0 <= e < E && 0 <= v < V ==> req[e, v] == Demand(reqs, e, v)
  {
    req := new int[E, V]((_, _) => 0);
    for i := 0 to |reqs|
      invariant forall e, v :: 0 <= e < E && 0 <= v < V ==> req[e, v] == Demand(reqs[..i], e, v)
    {
      assert reqs[..i + 1][..i] == reqs[..i];
      var r := reqs[i];
      req[r.endpoint, r.video] := req[r.endpoint, r.video] + r.count;
    }
    assert reqs[..|reqs|] == reqs;
  }
}
