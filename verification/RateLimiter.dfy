/** The per-client token bucket (internal/server/server.go:210-261). Times are nanoseconds; int and
    time.Duration are 64 bits wide. */
module RateLimiting {

  const MIN64 := -0x8000_0000_0000_0000
  const MAX64 := 0x7fff_ffff_ffff_ffff
  const MINUTE := 60_000_000_000

  predicate Is64(x: int) {
    MIN64 <= x <= MAX64
  }

  function Wrap64(x: int): (r: int)
    ensures Is64(r) && (Is64(x) ==> r == x) && (x - r) % 0x1_0000_0000_0000_0000 == 0
  {
    (x - MIN64) % 0x1_0000_0000_0000_0000 + MIN64
  }

  /** time.Time.Sub, which saturates. */
  function Sub(t: int, u: int): (r: int)
    ensures Is64(r) && (r < t - u ==> r == MAX64) && (r > t - u ==> r == MIN64)
  {
    if t - u < MIN64 then MIN64 else if t - u > MAX64 then MAX64 else t - u
  }

  /** elapsed / rl.interval, where Go truncates toward zero; the interval is always one minute. */
  function Minutes(elapsed: int): (m: int)
    ensures if elapsed >= 0 then m * MINUTE <= elapsed < (m + 1) * MINUTE
            else (m - 1) * MINUTE < elapsed <= m * MINUTE
  {
    if elapsed >= 0 then elapsed / MINUTE else -(-elapsed / MINUTE)
  }

  function Min(a: int, b: int): int {
    if a < b then a else b
  }

  datatype Bucket = Bucket(tokens: int, last: int)

  /** One call of allow: the address, the clock when a new bucket is made, and the clock after that. */
  datatype Call = Call(ip: string, made: int, now: int)

  type Clients = map<string, Bucket>

  function Refill(rate: int, elapsed: int): int {
    Wrap64(Minutes(elapsed) * rate)
  }

  function Topped(rate: int, b: Bucket, now: int): int {
    var refill := Refill(rate, Sub(now, b.last));
    if refill > 0 then Min(Wrap64(b.tokens + refill), rate) else b.tokens
  }

  /** One visit to a bucket: the bucket after it, and the answer. */
  function Draw(rate: int, b: Bucket, now: int): (Bucket, bool) {
    var tokens := Topped(rate, b, now);
    if tokens <= 0 then (Bucket(tokens, now), false) else (Bucket(tokens - 1, now), true)
  }

  function BucketFor(rate: int, clients: Clients, c: Call): Bucket {
    if c.ip in clients then clients[c.ip] else Bucket(rate, c.made)
  }

  function AfterAllow(rate: int, clients: Clients, c: Call): (Clients, bool) {
    var (b, ok) := Draw(rate, BucketFor(rate, clients, c), c.now);
    (clients[c.ip := b], ok)
  }

  // ---------- The objects

  class ClientBucket {
    var tokens: int
    var lastDrop: int

    constructor (tokens: int, lastDrop: int)
      ensures this.tokens == tokens && this.lastDrop == lastDrop
    {
      this.tokens := tokens;
      this.lastDrop := lastDrop;
    }

    function State(): Bucket
      reads this
    {
      Bucket(tokens, lastDrop)
    }

    /** The part of allow that works on one bucket. */
    method Take(rate: int, now: int) returns (ok: bool)
      modifies this
      ensures (State(), ok) == Draw(rate, old(State()), now)
      ensures lastDrop == now
      ensures now - MINUTE < old(lastDrop) <= now ==>
                (ok <==> old(tokens) > 0) && tokens == old(tokens) - if ok then 1 else 0
    {
      var elapsed := Sub(now, lastDrop);
      lastDrop := now;
      var refill := Refill(rate, elapsed);
      if refill > 0 {
        tokens := Min(Wrap64(tokens + refill), rate);
      }
      if tokens <= 0 { return false; }
      tokens := tokens - 1;
      return true;
    }
  }

  class RateLimiter {
    var clients: map<string, ClientBucket>
    const rate: int

    constructor (rpm: int)
      ensures Valid() && rate == rpm && Buckets() == map[]
    {
      clients := map[];
      rate := rpm;
    }

    /** No two addresses share a bucket. */
    ghost predicate Valid()
      reads this
    {
      forall a, b | a in clients && b in clients && clients[a] == clients[b] :: a == b
    }

    function Buckets(): Clients
      reads this, clients.Values
    {
      map a | a in clients :: clients[a].State()
    }

    method Allow(ip: string, made: int, now: int) returns (ok: bool)
      requires Valid()
      modifies this, clients.Values
      ensures Valid() && fresh(clients.Values - old(clients.Values))
      ensures (Buckets(), ok) == AfterAllow(rate, old(Buckets()), Call(ip, made, now))
      ensures Buckets().Keys == old(Buckets().Keys) + {ip} && Buckets()[ip].last == now
      ensures forall a | a in old(Buckets()) && a != ip :: Buckets()[a] == old(Buckets())[a]
    {
      ghost var before := Buckets();
      if ip !in clients {
        var bucket := new ClientBucket(rate, made);
        clients := clients[ip := bucket];
      }
      var cb := clients[ip];
      assert cb.State() == BucketFor(rate, before, Call(ip, made, now));
      ok := cb.Take(rate, now);
      assert Buckets() == before[ip := cb.State()];
    }
  }
}
