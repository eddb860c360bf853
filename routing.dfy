/**
 * The route table of webpp11: a map from path to a map from method to
 * handler. Handlers are user code, so they are an opaque type parameter.
 * Paths and methods are compared byte for byte; nothing is normalised.
 */
module Routing {
  import opened Http

  type Routes<H> = map<string, map<string, H>>

  /** The handler registered for exactly this path and method, if any. */
  function Lookup<H>(routes: Routes<H>, path: string, httpMethod: string): Option<H> {
    if path in routes && httpMethod in routes[path] then Some(routes[path][httpMethod]) else None
  }

  /**
   * routes[url][method] = handler: the inner map of url is created when url
   * is new and kept otherwise, and the entry for (url, method) is
   * overwritten. Nothing else changes.
   */
  function Register<H>(routes: Routes<H>, url: string, httpMethod: string, handler: H): (r: Routes<H>)
    ensures r.Keys == routes.Keys + {url}
    ensures Lookup(r, url, httpMethod) == Some(handler)
    ensures forall path, m :: (path != url || m != httpMethod) ==> Lookup(r, path, m) == Lookup(routes, path, m)
    ensures url in routes ==> r[url].Keys == routes[url].Keys + {httpMethod}
    ensures url !in routes ==> r[url].Keys == {httpMethod}
    ensures forall path :: path in routes && path != url ==> r[path] == routes[path]
  {
    var methods := if url in routes then routes[url] else map[];
    routes[url := methods[httpMethod := handler]]
  }

  /** Registering the same (url, method) twice keeps only the later handler. */
  lemma RegisterTwice<H>(routes: Routes<H>, url: string, httpMethod: string, first: H, second: H)
    ensures Register(Register(routes, url, httpMethod, first), url, httpMethod, second)
         == Register(routes, url, httpMethod, second)
  {
    var once := Register(routes, url, httpMethod, first);
    var twice := Register(once, url, httpMethod, second);
    var direct := Register(routes, url, httpMethod, second);
    assert twice[url] == direct[url];
  }
}
