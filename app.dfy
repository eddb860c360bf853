/**
 * webpp11's application classes: ApplicationBase owns the route table that
 * add_route fills in, and HttpApplication hands that table to its server
 * when it runs. The subclass relation is modelled by composition.
 */
module App {
  import opened Http
  import opened Routing
  import opened HttpServer

  type Port = x: nat | x < 0x1_0000

  class ApplicationBase<H> {
    /** routes: path -> method -> handler. */
    var routes: Routes<H>
    const port: Port

    constructor (port: Port)
      ensures this.port == port && routes == map[]
    {
      this.port := port;
      routes := map[];
    }

    /**
     * add_route: routes[url][method] = func, the method being "GET" when the
     * caller leaves it out. An earlier handler for the same pair is replaced;
     * every other entry of the table stays as it was.
     */
    method AddRoute(url: string, func: H, httpMethod: string := "GET")
      modifies this
      ensures routes == Register(old(routes), url, httpMethod, func)
      ensures Lookup(routes, url, httpMethod) == Some(func)
      ensures routes.Keys == old(routes).Keys + {url}
      ensures forall path, m :: (path != url || m != httpMethod) ==> Lookup(routes, path, m) == Lookup(old(routes), path, m)
    {
      routes := Register(routes, url, httpMethod, func);
    }
  }

  class HttpApplication<H> {
    const base: ApplicationBase<H>
    const server: Server<H>

    constructor (port: Port, numThreads: nat := 1)
      ensures fresh(base) && fresh(server)
      ensures base.port == port && base.routes == map[]
      ensures server.port == port && server.numThreads == numThreads && server.allRoutes == []
    {
      base := new ApplicationBase(port);
      server := new Server(port, numThreads);
    }

    /**
     * run: start the server on the registered table. Console output and
     * the event loop that start then enters are not part of this model.
     */
    method Run()
      modifies server
      ensures base.routes == old(base.routes)
      ensures |server.allRoutes| >= |old(server.allRoutes)|
      ensures server.allRoutes[..|old(server.allRoutes)|] == old(server.allRoutes)
      ensures Snapshot(server.allRoutes[|old(server.allRoutes)|..], base.routes)
    {
      server.Start(base.routes);
    }
  }

  /**
   * An application that registers routes and runs answers each request as
   * the table it built says: the registered handler of (path, method), the
   * 404 response otherwise.
   */
  method RegisterAndServe<H>(port: Port, url: string, func: H, request: Request) returns (d: Dispatch<H>)
    ensures d == if request.path == url && request.httpMethod == "GET" then Call(func) else Reply(NotFoundResponse)
  {
    var app := new HttpApplication<H>(port);
    app.base.AddRoute(url, func);
    app.Run();
    d := app.server.Respond(request);
    SnapshotDecide(app.server.allRoutes, app.base.routes, request);
  }
}
