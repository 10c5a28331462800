/** The per-client rate-limiter tables: `App.clients` with
    `getRateLimiter` of `app/app.go`, keyed by method and address, and
    `httpSvc.visitors` with `getVisitor` of `main.go`, keyed by address.
    Both insert a fresh limiter for a new key, refresh `lastSeen` for a
    known one, and are swept of entries idle for more than ten seconds.
    Times are nanoseconds read from a clock passed in. */
module RateLimits {

  const SECOND: int := 1_000_000_000
  const IDLE_LIMIT: int := 10 * SECOND

  /** `*rate.Limiter`: its identity and configuration (one token every
      `every` nanoseconds, bursts of `burst`); the token bucket itself is
      not part of this model. */
  class Limiter {
    const every: int
    const burst: int

    constructor (every: int, burst: int)
      ensures this.every == every && this.burst == burst
    {
      this.every := every;
      this.burst := burst;
    }
  }

  /** `client` / `visitor`: a limiter and when its key was last seen. */
  datatype Client = Client(limiter: Limiter, lastSeen: int)

  /** `time.Since(lastSeen) > 10*time.Second`. */
  predicate Idle(c: Client, now: int) {
    now - c.lastSeen > IDLE_LIMIT
  }

  /** One pass of a cleanup loop: deletes exactly the idle entries and
      leaves the others as they were. The order in which Go visits the keys
      is left open. */
  method Sweep(clients: map<string, Client>, now: int) returns (kept: map<string, Client>)
    ensures forall k :: k in kept <==> k in clients && !Idle(clients[k], now)
    ensures forall k :: k in kept ==> kept[k] == clients[k]
  {
    kept := clients;
    var todo := clients.Keys;
    while todo != {}
      invariant todo <= clients.Keys
      invariant forall k :: k in kept <==> k in clients && (k in todo || !Idle(clients[k], now))
      invariant forall k :: k in kept ==> kept[k] == clients[k]
      decreases |todo|
    {
      var k :| k in todo;
      if Idle(kept[k], now) {
        kept := kept - {k};
      }
      todo := todo - {k};
    }
  }

  /** The parts of an HTTP request the limiter reads: the method, the
      `Fly-Client-IP` header ("" when absent) and the remote address. */
  datatype Request = Request(verb: string, flyClientIP: string, remoteAddr: string)

  /** The client address: the proxy's header when set, the connection's
      address otherwise. */
  function ClientAddr(r: Request): string {
    if r.flyClientIP != "" then r.flyClientIP else r.remoteAddr
  }

  /** The key of `App.clients`: method followed by address. */
  function RateKey(r: Request): (key: string)
    ensures |key| == |r.verb| + |ClientAddr(r)|
    ensures key[..|r.verb|] == r.verb && key[|r.verb|..] == ClientAddr(r)
  {
    r.verb + ClientAddr(r)
  }

  /** Writes and reads from one address are limited separately. */
  lemma PostAndGetApart(flyClientIP: string, remoteAddr: string)
    ensures RateKey(Request("POST", flyClientIP, remoteAddr)) != RateKey(Request("GET", flyClientIP, remoteAddr))
  {
    assert RateKey(Request("POST", flyClientIP, remoteAddr))[0] == 'P';
    assert RateKey(Request("GET", flyClientIP, remoteAddr))[0] == 'G';
  }

  /** A key seen at `now` survives a sweep at `now`, and any sweep in the
      next ten seconds. */
  lemma SeenNotIdle(l: Limiter, seen: int, now: int)
    requires seen <= now <= seen + IDLE_LIMIT
    ensures !Idle(Client(l, seen), now)
  {
  }

  /** `App` of `app/app.go`: the client table. */
  class App {
    var clients: map<string, Client>

    constructor ()
      ensures clients == map[]
    {
      clients := map[];
    }

    /** `getRateLimiter`: a new key gets a fresh limiter, one token per
        second with bursts of 4 for POST, one per ten seconds with bursts
        of 2 otherwise; a known key keeps its limiter and only its
        `lastSeen` changes. */
    method GetRateLimiter(r: Request, now: int) returns (l: Limiter)
      modifies this
      ensures var key := RateKey(r);
        && (key !in old(clients) ==>
              && fresh(l)
              && l.every == (if r.verb == "POST" then SECOND else 10 * SECOND)
              && l.burst == (if r.verb == "POST" then 4 else 2)
              && clients == old(clients)[key := Client(l, now)])
        && (key in old(clients) ==>
              && l == old(clients)[key].limiter
              && clients == old(clients)[key := old(clients)[key].(lastSeen := now)])
    {
      var addr := r.flyClientIP;
      if addr == "" {
        addr := r.remoteAddr;
      }
      var key := r.verb + addr;
      if key !in clients {
        if r.verb == "POST" {
          l := new Limiter(SECOND, 4);
        } else {
          l := new Limiter(10 * SECOND, 2);
        }
        clients := clients[key := Client(l, now)];
        return;
      }
      var v := clients[key];
      clients := clients[key := v.(lastSeen := now)];
      l := v.limiter;
    }

    /** One pass of `cleanupVisitors`. */
    method CleanupVisitors(now: int)
      modifies this
      ensures forall k :: k in clients <==> k in old(clients) && !Idle(old(clients)[k], now)
      ensures forall k :: k in clients ==> clients[k] == old(clients)[k]
    {
      clients := Sweep(clients, now);
    }
  }

  /** `httpSvc` of `main.go`: the visitor table. */
  class HttpSvc {
    var visitors: map<string, Client>

    constructor ()
      ensures visitors == map[]
    {
      visitors := map[];
    }

    /** `getVisitor`: keyed by the address alone; a new address gets a
        fresh limiter of one token per second with bursts of 4. */
    method GetVisitor(addr: string, now: int) returns (l: Limiter)
      modifies this
      ensures addr !in old(visitors) ==>
        && fresh(l) && l.every == SECOND && l.burst == 4
        && visitors == old(visitors)[addr := Client(l, now)]
      ensures addr in old(visitors) ==>
        && l == old(visitors)[addr].limiter
        && visitors == old(visitors)[addr := old(visitors)[addr].(lastSeen := now)]
    {
      if addr !in visitors {
        l := new Limiter(SECOND, 4);
        visitors := visitors[addr := Client(l, now)];
        return;
      }
      var v := visitors[addr];
      visitors := visitors[addr := v.(lastSeen := now)];
      l := v.limiter;
    }

    /** One pass of `cleanupVisitors`. */
    method CleanupVisitors(now: int)
      modifies this
      ensures forall k :: k in visitors <==> k in old(visitors) && !Idle(old(visitors)[k], now)
      ensures forall k :: k in visitors ==> visitors[k] == old(visitors)[k]
    {
      visitors := Sweep(visitors, now);
    }
  }
}
