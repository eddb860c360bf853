/**
 * webpp11's Server: the route snapshot taken by start, the route search of
 * respond with its 404 fallback, parse_request, and the body-length
 * arithmetic of process.
 *
 * The socket plumbing around them (async_accept, async_read_until,
 * async_read, async_write and the worker threads) is not part of this model.
 * In the source the accept handler does not re-arm accept(), so only one
 * connection is ever accepted.
 */
module HttpServer {
  import opened Http
  import opened RequestParser
  import opened Routing
  import opened BodyLength

  /** One element of all_routes: a path and its method map. */
  type RouteEntry<H> = (string, map<string, H>)

  /** What respond does with a request: call one handler, or send the 404 response. */
  datatype Dispatch<H> = Call(handler: H) | Reply(response: Response)

  predicate Hit<H>(entry: RouteEntry<H>, path: string, httpMethod: string) {
    entry.0 == path && httpMethod in entry.1
  }

  /**
   * The handler of the first entry whose path is the request path and whose
   * method map holds the request method; None when no entry does.
   */
  function FirstHit<H>(entries: seq<RouteEntry<H>>, path: string, httpMethod: string): (r: Option<H>)
    ensures r.Some? <==> exists i :: 0 <= i < |entries| && Hit(entries[i], path, httpMethod)
    ensures r.Some? ==>
      exists i :: (0 <= i < |entries| && Hit(entries[i], path, httpMethod)
        && r.value == entries[i].1[httpMethod]
        && forall j :: 0 <= j < i ==> !Hit(entries[j], path, httpMethod))
    decreases |entries|
  {
    if entries == [] then None
    else if Hit(entries[0], path, httpMethod) then Some(entries[0].1[httpMethod])
    else
      var r := FirstHit(entries[1..], path, httpMethod);
      assert forall i :: 0 < i < |entries| ==> entries[i] == entries[1..][i - 1];
      assert r.Some? ==> exists i :: (0 <= i < |entries[1..]| && Hit(entries[1..][i], path, httpMethod)
        && r.value == entries[1..][i].1[httpMethod]
        && (forall j :: 0 <= j < i ==> !Hit(entries[1..][j], path, httpMethod))
        && (forall j :: 0 <= j < i + 1 ==> !Hit(entries[j], path, httpMethod)));
      r
  }

  /** The decision respond takes for a request against the snapshot. */
  function Decide<H>(entries: seq<RouteEntry<H>>, request: Request): (d: Dispatch<H>)
    ensures d.Call? <==> exists i :: 0 <= i < |entries| && Hit(entries[i], request.path, request.httpMethod)
    ensures d.Reply? ==> d.response == Response(NotFound, "")
  {
    match FirstHit(entries, request.path, request.httpMethod)
    case Some(h) => Call(h)
    case None => Reply(NotFoundResponse)
  }

  /**
   * entries lists, once each, the paths in keys together with their method
   * maps in routes (in no particular order).
   */
  ghost predicate SnapshotOf<H>(entries: seq<RouteEntry<H>>, routes: Routes<H>, keys: set<string>) {
    && (forall i :: 0 <= i < |entries| ==> entries[i].0 in keys && entries[i].0 in routes && entries[i].1 == routes[entries[i].0])
    && (forall path :: path in keys ==> exists i :: 0 <= i < |entries| && entries[i].0 == path)
    && (forall i, j :: 0 <= i < j < |entries| ==> entries[i].0 != entries[j].0)
  }

  /** Appending the entry of a path not yet listed extends a partial snapshot by that path. */
  lemma SnapshotExtend<H>(entries: seq<RouteEntry<H>>, routes: Routes<H>, keys: set<string>, path: string)
    requires SnapshotOf(entries, routes, keys)
    requires path in routes && path !in keys
    ensures SnapshotOf(entries + [(path, routes[path])], routes, keys + {path})
  {
    var longer := entries + [(path, routes[path])];
    forall p | p in keys + {path}
      ensures exists i :: 0 <= i < |longer| && longer[i].0 == p
    {
      if p == path {
        assert longer[|entries|].0 == p;
      } else {
        var i :| 0 <= i < |entries| && entries[i].0 == p;
        assert longer[i].0 == p;
      }
    }
  }

  ghost predicate Snapshot<H>(entries: seq<RouteEntry<H>>, routes: Routes<H>) {
    SnapshotOf(entries, routes, routes.Keys)
  }

  /**
   * Scanning a snapshot of the route table decides exactly as a lookup in
   * the table: the handler of (path, method) when it is registered, the
   * 404 response otherwise, also when only the path is registered. The
   * order of the snapshot does not matter, since paths are unique.
   */
  lemma SnapshotDecide<H>(entries: seq<RouteEntry<H>>, routes: Routes<H>, request: Request)
    requires Snapshot(entries, routes)
    ensures Decide(entries, request) ==
      match Lookup(routes, request.path, request.httpMethod)
      case Some(h) => Call(h)
      case None => Reply(NotFoundResponse)
  {
    var path, m := request.path, request.httpMethod;
    if path in routes && m in routes[path] {
      var i :| 0 <= i < |entries| && entries[i].0 == path;
      assert Hit(entries[i], path, m);
      var r := FirstHit(entries, path, m);
      var k :| 0 <= k < |entries| && Hit(entries[k], path, m) && r.value == entries[k].1[m];
      assert k == i;
    }
  }

  /** What one pass of process decides once the header block has arrived. */
  datatype Cycle<H> =
    | Undefined                                          // pop_back met an empty line
    | Aborted                                            // std::stoull threw
    | Handled(request: Request, body: BodyRead, dispatch: Dispatch<H>)

  class Server<H> {
    const port: nat
    const numThreads: nat
    /** all_routes: one entry per path of the table given to start. */
    var allRoutes: seq<RouteEntry<H>>

    constructor (port: nat, numThreads: nat := 1)
      requires port < 0x1_0000
      ensures this.port == port && this.numThreads == numThreads
      ensures allRoutes == []
    {
      this.port := port;
      this.numThreads := numThreads;
      allRoutes := [];
    }

    /**
     * start: append one entry per path of routes to all_routes. The source
     * visits std::map in key order and stores iterators into the live
     * table; here the entries are copies, in any order.
     */
    method Start(routes: Routes<H>)
      modifies this
      ensures |allRoutes| >= |old(allRoutes)|
      ensures allRoutes[..|old(allRoutes)|] == old(allRoutes)
      ensures Snapshot(allRoutes[|old(allRoutes)|..], routes)
    {
      ghost var before := allRoutes;
      ghost var added: seq<RouteEntry<H>> := [];
      var remaining := routes.Keys;
      while remaining != {}
        invariant remaining <= routes.Keys
        invariant allRoutes == before + added
        invariant SnapshotOf(added, routes, routes.Keys - remaining)
        decreases remaining
      {
        var path :| path in remaining;
        SnapshotExtend(added, routes, routes.Keys - remaining, path);
        assert (routes.Keys - remaining) + {path} == routes.Keys - (remaining - {path});
        allRoutes := allRoutes + [(path, routes[path])];
        added := added + [(path, routes[path])];
        remaining := remaining - {path};
      }
      assert routes.Keys - remaining == routes.Keys;
      assert allRoutes[|before|..] == added;
    }

    /**
     * respond: scan all_routes for the first entry whose path is the
     * request path and whose method map holds the request method, and call
     * that one handler; when there is none, send 404 with an empty body.
     */
    method Respond(request: Request) returns (d: Dispatch<H>)
      ensures d == Decide(allRoutes, request)
      ensures d.Reply? ==> d.response == Response(NotFound, "")
    {
      for i := 0 to |allRoutes|
        invariant forall j :: 0 <= j < i ==> !Hit(allRoutes[j], request.path, request.httpMethod)
      {
        var entry := allRoutes[i];
        if entry.0 == request.path {
          if request.httpMethod in entry.1 {
            return Call(entry.1[request.httpMethod]);
          }
        }
      }
      return Reply(NotFoundResponse);
    }

    /**
     * parse_request: read the request line; when it fits the pattern, read
     * header lines until one does not fit, storing each pair as it comes.
     */
    method ParseRequest(stream: string) returns (r: ParseOutcome)
      requires HasTerminator(stream)
      ensures r == ParseHead(stream)
    {
      var next := Getline(stream);
      var line, input := next.0, next.1;
      if line == [] {
        return PopBackOnEmptyLine;
      }
      line := PopBack(line);
      var fields := MatchRequestLine(line);
      if fields.None? {
        return Parsed(EmptyRequest);
      }
      ParseHeadUnfold(stream);
      r := ReadHeaders(input, Request(fields.value.0, fields.value.1, fields.value.2, map[]));
    }

    /**
     * The header loop of parse_request: read lines while they fit the
     * header pattern, storing each pair into the request's header map.
     */
    method ReadHeaders(stream: string, start: Request) returns (r: ParseOutcome)
      requires Framed(stream)
      ensures r ==
        match HeaderBlock(stream)
        case None => PopBackOnEmptyLine
        case Some(pairs) => Parsed(start.(header := Record(start.header, pairs)))
    {
      var input, request := stream, start;
      ghost var block := HeaderBlock(stream);
      ghost var done: seq<(string, string)> := [];
      assert block == Prepend([], HeaderBlock(input)) by {
        if block.Some? {
          assert [] + block.value == block.value;
        }
      }
      var matched := true;
      while matched
        invariant request == start.(header := Record(start.header, done))
        invariant matched ==> Framed(input) && block == Prepend(done, HeaderBlock(input))
        invariant !matched ==> block == Some(done)
        decreases matched, |input|
      {
        HeaderStep(done, input, block);
        var next := Getline(input);
        var line;
        line, input := next.0, next.1;
        if line == [] {
          return PopBackOnEmptyLine;
        }
        line := PopBack(line);
        var field := MatchHeaderLine(line);
        matched := field.Some?;
        if matched {
          RecordAppend(start.header, done, field.value);
          request := request.(header := request.header[field.value.0 := field.value.1]);
          done := done + [field.value];
        }
      }
      return Parsed(request);
    }

    /**
     * process, once async_read_until has found the header terminator:
     * parse the head, work out the extra body read, and (after it) respond.
     */
    method Process(buffer: string, bytesTransferred: nat) returns (c: Cycle<H>)
      requires HasTerminator(buffer)
      requires bytesTransferred <= |buffer| < SizeMod
      ensures ParseHead(buffer).PopBackOnEmptyLine? ==> c == Undefined
      ensures ParseHead(buffer).Parsed? ==>
        var request := ParseHead(buffer).request;
        var body := BodyReadFor(request.header, |buffer|, bytesTransferred);
        c == if body == LengthRejected then Aborted else Handled(request, body, Decide(allRoutes, request))
    {
      var parsed := ParseRequest(buffer);
      if parsed.PopBackOnEmptyLine? {
        return Undefined;
      }
      var request := parsed.request;
      var body := BodyReadFor(request.header, |buffer|, bytesTransferred);
      if body == LengthRejected {
        return Aborted;
      }
      var dispatch := Respond(request);
      return Handled(request, body, dispatch);
    }
  }
}
