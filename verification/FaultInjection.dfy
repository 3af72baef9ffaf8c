/**
 Transactional fault injection: contracts are applied to remote services one at a time,
 any request may fail before, during or after taking effect, and everything applied is
 unwound in reverse (evals/benchmarks/fault_adapter.py).
 */
module FaultInjection {
  import opened Results

  datatype Json = Null | Text(text: string)

  type Payload = map<string, Json>

  // A setting: a config endpoint (service URL and path) and a key of its config.
  datatype Location = Location(endpoint: string, key: string)

  // All settings of all services.
  type World = map<Location, Json>

  datatype Contract = Contract(target: string, path: string, inject: Payload, cleanup: Payload)

  datatype Lease = Lease(target: string, url: string, path: string, original: Payload, injected: Payload) {
    function Endpoint(): string { url + path }
  }

  datatype Error =
    | InvalidContract(detail: string)
    | RequestFailed(detail: string)
    | NotConfirmed(detail: string)
    | InjectionAndCleanupFailed
    | UnwindFailed(target: string)
    | CleanupFailed(targets: seq<string>)
  {
    // The error tells its reader that something may still be applied.
    predicate SaysCleanupFailed() { InjectionAndCleanupFailed? || UnwindFailed? || CleanupFailed? }
  }

  // ----- Reading a world

  function Read(w: World, q: Location): Option<Json> { if q in w then Some(w[q]) else None }

  // `config.get(key)`: a missing key reads as null.
  function Lookup(w: World, q: Location): Json {
    match Read(w, q)
    case None => Null
    case Some(v) => v
  }

  function Config(w: World, endpoint: string): Payload {
    map q | q in w && q.endpoint == endpoint :: q.key := w[q]
  }

  function Get(p: Payload, key: string): Json { if key in p then p[key] else Null }

  // No expected key reads differently.
  predicate Confirms(actual: Payload, expected: Payload) {
    forall k :: k in expected ==> Get(actual, k) == expected[k]
  }

  // Two worlds no request can tell apart.
  ghost predicate Same(w: World, w': World) { forall q :: Lookup(w, q) == Lookup(w', q) }

  function Settings(endpoint: string, p: Payload): set<(Location, Json)> {
    set k | k in p :: (Location(endpoint, k), p[k])
  }

  // A payload written over an endpoint's config.
  function Overlay(w: World, endpoint: string, p: Payload): World {
    w + map k | k in p :: Location(endpoint, k) := p[k]
  }

  // Every setting of w' is as in w or one of the allowed ones.
  ghost predicate Within(w: World, w': World, allowed: set<(Location, Json)>) {
    forall q :: Read(w', q) == Read(w, q) || (Read(w', q).Some? && (q, Read(w', q).value) in allowed)
  }

  lemma WithinTransitive(a: World, b: World, c: World, s: set<(Location, Json)>, t: set<(Location, Json)>)
    requires Within(a, b, s) && Within(b, c, t)
    ensures Within(a, c, s + t)
  {
    forall q ensures Read(c, q) == Read(a, q) || (Read(c, q).Some? && (q, Read(c, q).value) in s + t) {
      assert Read(c, q) == Read(b, q) || (Read(c, q).Some? && (q, Read(c, q).value) in t);
      assert Read(b, q) == Read(a, q) || (Read(b, q).Some? && (q, Read(b, q).value) in s);
    }
  }

  lemma WithinLarger(w: World, w': World, s: set<(Location, Json)>, t: set<(Location, Json)>)
    requires Within(w, w', s) && s <= t
    ensures Within(w, w', t)
  {
    forall q ensures Read(w', q) == Read(w, q) || (Read(w', q).Some? && (q, Read(w', q).value) in t) {
      assert Read(w', q) == Read(w, q) || (Read(w', q).Some? && (q, Read(w', q).value) in s);
    }
  }

  // Some lease of the target restores an endpoint among those that met trouble.
  ghost predicate Named(leases: seq<Lease>, target: string, troubles: seq<string>) {
    exists i :: 0 <= i < |leases| && leases[i].target == target && leases[i].Endpoint() in troubles
  }

  // ----- The remote services

  class Services {
    var world: World
    // The endpoints of the requests that met trouble: unanswered, or written only in part.
    ghost var troubles: seq<string>

    constructor (w: World)
      ensures world == w && troubles == []
    {
      world, troubles := w, [];
    }

    // A read that arrives is truthful.
    method Fetch(endpoint: string) returns (r: Result<Payload, Error>)
      modifies `troubles
      ensures r.Ok? ==> r.value == Config(world, endpoint)
      ensures r.Err? ==> r.error.RequestFailed?
      ensures troubles == if r.Ok? then old(troubles) else old(troubles) + [endpoint]
    {
      var arrives: bool := *;
      if !arrives {
        troubles := troubles + [endpoint];
        return Err(RequestFailed("GET"));
      }
      return Ok(Config(world, endpoint));
    }

    // A write may apply any of its keys and may fail afterwards; its echo is truthful. Without
    // trouble it is answered and applies all of them.
    method Post(endpoint: string, payload: Payload) returns (r: Result<Payload, Error>)
      modifies this
      ensures Within(old(world), world, Settings(endpoint, payload))
      ensures r.Ok? ==> r.value == Config(world, endpoint)
      ensures r.Err? ==> r.error.RequestFailed?
      ensures troubles == old(troubles) || troubles == old(troubles) + [endpoint]
      ensures troubles == old(troubles) ==> r.Ok? && world == Overlay(old(world), endpoint, payload)
    {
      assert {} <= payload.Keys;
      var applied: set<string> :| applied <= payload.Keys;
      world := world + map k | k in applied :: Location(endpoint, k) := payload[k];
      var answered: bool := *;
      if !answered || applied != payload.Keys {
        troubles := troubles + [endpoint];
      }
      if !answered {
        return Err(RequestFailed("POST"));
      }
      return Ok(Config(world, endpoint));
    }
  }

  // ----- Unwinding as a function

  // The world after a lease's original values are written back.
  ghost function Restored(w: World, lease: Lease): World {
    Overlay(w, lease.Endpoint(), lease.original)
  }

  // The world after all leases are restored, the last one first.
  ghost function Unwind(w: World, leases: seq<Lease>): World {
    if leases == [] then w else Restored(Unwind(w, leases[1..]), leases[0])
  }

  ghost function Touched(lease: Lease): set<Location> {
    set k | k in lease.original :: Location(lease.Endpoint(), k)
  }

  ghost function AllTouched(leases: seq<Lease>): set<Location> {
    if leases == [] then {} else Touched(leases[0]) + AllTouched(leases[1..])
  }

  ghost predicate AgreeOff(w: World, w': World, s: set<Location>) {
    forall q :: q !in s ==> Lookup(w, q) == Lookup(w', q)
  }

  lemma RestoredAgree(w: World, w': World, lease: Lease, s: set<Location>)
    requires AgreeOff(w, w', s + Touched(lease))
    ensures AgreeOff(Restored(w, lease), Restored(w', lease), s)
  {
    forall q | q !in s ensures Lookup(Restored(w, lease), q) == Lookup(Restored(w', lease), q) {
      if q in Touched(lease) {
        assert q == Location(lease.Endpoint(), q.key) && q.key in lease.original;
      } else {
        assert q !in s + Touched(lease);
        assert Lookup(w, q) == Lookup(w', q);
      }
    }
  }

  // Unwinding forgets everything about the settings it restores.
  lemma {:induction false} UnwindForgets(w: World, w': World, leases: seq<Lease>, s: set<Location>)
    requires AgreeOff(w, w', s + AllTouched(leases))
    ensures AgreeOff(Unwind(w, leases), Unwind(w', leases), s)
  {
    if leases != [] {
      var t := s + Touched(leases[0]);
      assert t + AllTouched(leases[1..]) == s + AllTouched(leases);
      UnwindForgets(w, w', leases[1..], t);
      RestoredAgree(Unwind(w, leases[1..]), Unwind(w', leases[1..]), leases[0], s);
    }
  }

  lemma UnwindSame(w: World, w': World, leases: seq<Lease>)
    requires Same(w, w')
    ensures Same(Unwind(w, leases), Unwind(w', leases))
  {
    UnwindForgets(w, w', leases, {});
  }

  lemma {:induction false} UnwindSnoc(w: World, leases: seq<Lease>, lease: Lease)
    ensures Unwind(w, leases + [lease]) == Unwind(Restored(w, lease), leases)
  {
    if leases == [] {
      assert [lease][1..] == [];
    } else {
      assert (leases + [lease])[1..] == leases[1..] + [lease];
      UnwindSnoc(w, leases[1..], lease);
    }
  }

  // ----- Cleaning up in part

  // Only lease i restores this setting.
  ghost predicate Own(leases: seq<Lease>, i: nat, q: Location) {
    forall j :: 0 <= j < |leases| && j != i ==> q !in Touched(leases[j])
  }

  // What lease i alone restores reads as it did before.
  ghost predicate Back(w: World, leases: seq<Lease>, i: nat)
    requires i < |leases|
  {
    forall k :: k in leases[i].original && Own(leases, i, Location(leases[i].Endpoint(), k)) ==>
      Lookup(w, Location(leases[i].Endpoint(), k)) == leases[i].original[k]
  }

  // Restoring lease i, even in part, takes nothing back from the others.
  lemma BackStep(w: World, w': World, leases: seq<Lease>, i: nat, confirmed: bool)
    requires i < |leases| && Within(w, w', Settings(leases[i].Endpoint(), leases[i].original))
    requires confirmed ==> Same(w', Restored(w, leases[i]))
    ensures confirmed ==> Back(w', leases, i)
    ensures forall j :: 0 <= j < |leases| && j != i && Back(w, leases, j) ==> Back(w', leases, j)
  {
    if confirmed {
      forall k | k in leases[i].original
        ensures Lookup(w', Location(leases[i].Endpoint(), k)) == leases[i].original[k]
      {
        var q := Location(leases[i].Endpoint(), k);
        assert Lookup(w', q) == Lookup(Restored(w, leases[i]), q);
      }
    }
    forall j | 0 <= j < |leases| && j != i && Back(w, leases, j) ensures Back(w', leases, j) {
      BackStays(w, w', leases, i, j);
    }
  }

  lemma BackStays(w: World, w': World, leases: seq<Lease>, i: nat, j: nat)
    requires i < |leases| && j < |leases| && j != i
    requires Within(w, w', Settings(leases[i].Endpoint(), leases[i].original)) && Back(w, leases, j)
    ensures Back(w', leases, j)
  {
    forall k | k in leases[j].original && Own(leases, j, Location(leases[j].Endpoint(), k))
      ensures Lookup(w', Location(leases[j].Endpoint(), k)) == leases[j].original[k]
    {
      var q := Location(leases[j].Endpoint(), k);
      assert q !in Touched(leases[i]);
      assert Read(w', q) == Read(w, q);
    }
  }

  // ----- Facts about single requests

  lemma ConfigReads(w: World, endpoint: string, key: string)
    ensures Get(Config(w, endpoint), key) == Lookup(w, Location(endpoint, key))
  {
    var q := Location(endpoint, key);
    if q in w {
      assert Config(w, endpoint)[q.key] == w[q];
    }
  }

  // A confirmed write leaves exactly the world with the payload written over it.
  lemma ConfirmedWrite(w: World, w': World, endpoint: string, payload: Payload)
    requires Within(w, w', Settings(endpoint, payload))
    requires Confirms(Config(w', endpoint), payload)
    ensures Same(w', Overlay(w, endpoint, payload))
  {
    forall q ensures Lookup(w', q) == Lookup(Overlay(w, endpoint, payload), q) {
      assert Read(w', q) == Read(w, q) || (Read(w', q).Some? && (q, Read(w', q).value) in Settings(endpoint, payload));
      if q.endpoint == endpoint && q.key in payload {
        ConfigReads(w', endpoint, q.key);
        assert q == Location(endpoint, q.key);
      }
    }
  }

  // A payload written in full is confirmed.
  lemma OverlayConfirmed(w: World, endpoint: string, payload: Payload)
    ensures Confirms(Config(Overlay(w, endpoint, payload), endpoint), payload)
  {
    forall k | k in payload ensures Get(Config(Overlay(w, endpoint, payload), endpoint), k) == payload[k] {
      ConfigReads(Overlay(w, endpoint, payload), endpoint, k);
    }
  }

  // A baseline is confirmed exactly when it holds.
  lemma BaselineConfirmed(w: World, endpoint: string, original: Payload, cleanup: Payload)
    requires original.Keys == cleanup.Keys && forall k :: k in original ==> original[k] == Get(Config(w, endpoint), k)
    ensures Confirms(original, cleanup) <==> Holds(w, endpoint, cleanup)
  {
    forall k | k in cleanup ensures Get(original, k) == Lookup(w, Location(endpoint, k)) {
      ConfigReads(w, endpoint, k);
    }
  }

  ghost predicate Present(w: World, s: set<(Location, Json)>) { forall x :: x in s ==> x.0 in w }

  // Writing settings that exist neither adds nor removes one.
  lemma WithinKeys(w: World, w': World, s: set<(Location, Json)>)
    requires Within(w, w', s) && Present(w, s)
    ensures w'.Keys == w.Keys
  {
    forall q ensures q in w' <==> q in w {
      assert Read(w', q) == Read(w, q) || (Read(w', q).Some? && (q, Read(w', q).value) in s);
    }
  }

  lemma SameKeysEqual(w: World, w': World)
    requires Same(w, w') && w.Keys == w'.Keys
    ensures w == w'
  {
    forall q | q in w ensures w[q] == w'[q] {
      assert Lookup(w, q) == Lookup(w', q);
    }
  }

  ghost predicate Holds(w: World, endpoint: string, p: Payload) {
    forall k :: k in p ==> Lookup(w, Location(endpoint, k)) == p[k]
  }

  // If the declared baseline holds, all its settings exist.
  ghost predicate Sheltered(w: World, endpoint: string, cleanup: Payload) {
    Holds(w, endpoint, cleanup) ==> forall k :: k in cleanup ==> Location(endpoint, k) in w
  }

  lemma ShelteredPresent(w: World, endpoint: string, inject: Payload, cleanup: Payload)
    requires inject.Keys == cleanup.Keys && Holds(w, endpoint, cleanup) && Sheltered(w, endpoint, cleanup)
    ensures Present(w, Settings(endpoint, inject)) && Present(w, Settings(endpoint, cleanup))
  {}

  // Writing such settings, and writing them back, neither adds nor removes one.
  lemma ShelteredKeys(w: World, w': World, endpoint: string, inject: Payload, cleanup: Payload)
    requires inject.Keys == cleanup.Keys && Holds(w, endpoint, cleanup)
    requires Within(w, w', Settings(endpoint, inject) + Settings(endpoint, cleanup))
    ensures Sheltered(w, endpoint, cleanup) ==>
              w'.Keys == w.Keys && forall k :: k in cleanup ==> Location(endpoint, k) in w'
  {
    if Sheltered(w, endpoint, cleanup) {
      ShelteredPresent(w, endpoint, inject, cleanup);
      WithinKeys(w, w', Settings(endpoint, inject) + Settings(endpoint, cleanup));
    }
  }

  // ----- Declared settings

  ghost function DeclaredBy(urls: map<string, string>, c: Contract): set<(Location, Json)>
    requires c.target in urls
  {
    Settings(urls[c.target] + c.path, c.inject) + Settings(urls[c.target] + c.path, c.cleanup)
  }

  predicate ValidContract(urls: map<string, string>, c: Contract) {
    && c.target in urls
    && "/" <= c.path && !("//" <= c.path)
    && c.inject != map[] && c.inject.Keys == c.cleanup.Keys
  }

  predicate ValidContracts(urls: map<string, string>, cs: seq<Contract>) {
    && cs != []
    && EachValid(urls, cs)
    && (forall i, j :: 0 <= i < j < |cs| ==> cs[i].target != cs[j].target)
  }

  predicate EachValid(urls: map<string, string>, cs: seq<Contract>) {
    forall i :: 0 <= i < |cs| ==> ValidContract(urls, cs[i])
  }

  ghost function Declared(urls: map<string, string>, cs: seq<Contract>): set<(Location, Json)>
    requires EachValid(urls, cs)
  {
    if cs == [] then {}
    else
      var c := cs[|cs| - 1];
      assert ValidContract(urls, c);
      Declared(urls, cs[..|cs| - 1]) + DeclaredBy(urls, c)
  }

  // The world with every contract applied in order.
  ghost function Applied(w: World, urls: map<string, string>, cs: seq<Contract>): World
    requires EachValid(urls, cs)
  {
    if cs == [] then w
    else
      var c := cs[|cs| - 1];
      assert ValidContract(urls, c);
      Overlay(Applied(w, urls, cs[..|cs| - 1]), urls[c.target] + c.path, c.inject)
  }

  // The lease that records a contract's application.
  ghost predicate Records(urls: map<string, string>, lease: Lease, c: Contract)
    requires c.target in urls
  {
    lease == Lease(c.target, urls[c.target], c.path, c.cleanup, c.inject)
  }

  // A contract's baseline, as settings.
  ghost function Baseline(urls: map<string, string>, c: Contract): World
    requires c.target in urls
  {
    map k | k in c.cleanup :: Location(urls[c.target] + c.path, k) := c.cleanup[k]
  }

  // For every setting some contract touches, the baseline of the first contract that does.
  ghost function Originals(urls: map<string, string>, cs: seq<Contract>): World
    requires EachValid(urls, cs)
  {
    if cs == [] then map[]
    else
      assert ValidContract(urls, cs[|cs| - 1]);
      Baseline(urls, cs[|cs| - 1]) + Originals(urls, cs[..|cs| - 1])
  }

  // No setting is first touched by a contract that declares it null.
  ghost predicate Restorable(urls: map<string, string>, cs: seq<Contract>) {
    EachValid(urls, cs) && forall q :: q in Originals(urls, cs) ==> Originals(urls, cs)[q] != Null
  }

  // One lease per contract, in order.
  ghost predicate Leased(urls: map<string, string>, leases: seq<Lease>, cs: seq<Contract>)
    requires EachValid(urls, cs)
  {
    |leases| == |cs| && forall i :: 0 <= i < |cs| ==> ValidContract(urls, cs[i]) && Records(urls, leases[i], cs[i])
  }

  ghost function AllSettings(leases: seq<Lease>): set<(Location, Json)> {
    if leases == [] then {} else Settings(leases[0].Endpoint(), leases[0].original) + AllSettings(leases[1..])
  }

  // What holds after the first i contracts were applied.
  ghost predicate Progress(urls: map<string, string>, before: World, w: World, leases: seq<Lease>, cs: seq<Contract>,
                           i: nat)
    requires EachValid(urls, cs)
  {
    && i <= |cs| && EachValid(urls, cs[..i])
    && Leased(urls, leases, cs[..i])
    && Same(w, Applied(before, urls, cs[..i]))
    && Same(Unwind(w, leases), before)
    && Within(before, w, Declared(urls, cs))
    && (Restorable(urls, cs) ==> w.Keys == before.Keys && AllTouched(leases) <= w.Keys)
  }

  // ----- The adapter

  class MeridianAdminConfigAdapter {
    const serviceUrls: map<string, string>

    constructor (urls: map<string, string>)
      ensures serviceUrls == urls
    {
      serviceUrls := urls;
    }

    method Contracts(declared: seq<Contract>) returns (r: Result<seq<Contract>, Error>)
      ensures r.Ok? <==> ValidContracts(serviceUrls, declared)
      ensures r.Ok? ==> r.value == declared
      ensures r.Err? ==> r.error.InvalidContract?
    {
      if declared == [] {
        return Err(InvalidContract("fault.contracts must be a non-empty list"));
      }
      var seen: set<string> := {};
      for i := 0 to |declared|
        invariant forall j :: 0 <= j < i ==> ValidContract(serviceUrls, declared[j])
        invariant seen == set j | 0 <= j < i :: declared[j].target
        invariant forall j, k :: 0 <= j < k < i ==> declared[j].target != declared[k].target
      {
        var c := declared[i];
        if c.target !in serviceUrls {
          return Err(InvalidContract("unsupported fault target"));
        }
        if c.target in seen {
          return Err(InvalidContract("duplicate fault target"));
        }
        seen := seen + {c.target};
        if !("/" <= c.path) || "//" <= c.path {
          return Err(InvalidContract("fault contract path must be relative"));
        }
        if c.inject == map[] || c.inject.Keys != c.cleanup.Keys {
          return Err(InvalidContract("inject and cleanup payloads must declare the same keys"));
        }
      }
      return Ok(declared);
    }

    method Restore(client: Services, endpoint: string, original: Payload) returns (r: Result<(), Error>)
      modifies client
      ensures Within(old(client.world), client.world, Settings(endpoint, original))
      ensures r.Ok? ==> Same(client.world, Overlay(old(client.world), endpoint, original))
      ensures client.troubles == old(client.troubles) || client.troubles == old(client.troubles) + [endpoint]
      ensures client.troubles == old(client.troubles) ==> r.Ok?
      ensures r.Err? ==> !r.error.InvalidContract?
    {
      var response := client.Post(endpoint, original);
      if response.Err? {
        return Err(response.error);
      }
      OverlayConfirmed(old(client.world), endpoint, original);
      if !Confirms(response.value, original) {
        return Err(NotConfirmed("cleanup response"));
      }
      ConfirmedWrite(old(client.world), client.world, endpoint, original);
      return Ok(());
    }

    // The write and its undo: the part of an injection after the baseline was verified.
    method ApplyOrUndo(client: Services, endpoint: string, inject: Payload, original: Payload)
      returns (r: Result<(), Error>)
      requires inject.Keys == original.Keys && Holds(client.world, endpoint, original)
      modifies client
      ensures Within(old(client.world), client.world, Settings(endpoint, inject) + Settings(endpoint, original))
      ensures r.Ok? ==> Same(client.world, Overlay(old(client.world), endpoint, inject))
      ensures r.Ok? ==> Same(Overlay(client.world, endpoint, original), old(client.world))
      ensures r.Err? && !r.error.SaysCleanupFailed() ==> Same(client.world, old(client.world))
      ensures r.Err? ==> !r.error.InvalidContract?
      ensures old(client.troubles) <= client.troubles
      ensures client.troubles == old(client.troubles) ==> r.Ok?
    {
      ghost var before := client.world;
      ghost var injected, restored := Settings(endpoint, inject), Settings(endpoint, original);
      var response := client.Post(endpoint, inject);
      ghost var after := client.world;
      WithinLarger(before, after, injected, injected + restored);
      RestoreUndoes(before, after, endpoint, inject, original);
      OverlayConfirmed(before, endpoint, inject);
      if response.Ok? && Confirms(response.value, inject) {
        ConfirmedWrite(before, after, endpoint, inject);
        return Ok(());
      }
      var undone := Restore(client, endpoint, original);
      WithinTransitive(before, after, client.world, injected, restored);
      if undone.Err? {
        return Err(InjectionAndCleanupFailed);
      }
      SameTransitive(client.world, Overlay(after, endpoint, original), before);
      return Err(if response.Err? then response.error else NotConfirmed("injection response"));
    }

    method InjectOne(client: Services, c: Contract) returns (r: Result<Lease, Error>)
      requires ValidContract(serviceUrls, c)
      modifies client
      ensures Within(old(client.world), client.world, DeclaredBy(serviceUrls, c))
      ensures r.Ok? ==> Records(serviceUrls, r.value, c)
      ensures r.Ok? ==> Same(client.world, Overlay(old(client.world), serviceUrls[c.target] + c.path, c.inject))
      ensures r.Ok? ==> Same(Restored(client.world, r.value), old(client.world))
      ensures r.Err? && !r.error.SaysCleanupFailed() ==> Same(client.world, old(client.world))
      ensures r.Err? ==> !r.error.InvalidContract?
      ensures Sheltered(old(client.world), serviceUrls[c.target] + c.path, c.cleanup) ==>
                && client.world.Keys == old(client.world).Keys
                && (r.Ok? ==> Touched(r.value) <= client.world.Keys)
      ensures old(client.troubles) <= client.troubles
      ensures r.Ok? ==> Holds(old(client.world), serviceUrls[c.target] + c.path, c.cleanup)
      ensures client.troubles == old(client.troubles) ==>
                if Holds(old(client.world), serviceUrls[c.target] + c.path, c.cleanup) then r.Ok?
                else r.Err? && !r.error.SaysCleanupFailed()
    {
      var url := serviceUrls[c.target];
      var endpoint := url + c.path;
      ghost var before := client.world;
      var current := client.Fetch(endpoint);
      if current.Err? {
        return Err(current.error);
      }
      var original := map k | k in c.inject :: Get(current.value, k);
      BaselineConfirmed(before, endpoint, original, c.cleanup);
      if !Confirms(original, c.cleanup) {
        return Err(NotConfirmed("baseline"));
      }
      assert original == c.cleanup;
      BaselineReads(before, endpoint, c.inject, c.cleanup);
      var applied := ApplyOrUndo(client, endpoint, c.inject, original);
      ShelteredKeys(before, client.world, endpoint, c.inject, c.cleanup);
      if applied.Err? {
        return Err(applied.error);
      }
      return Ok(Lease(c.target, url, c.path, original, c.inject));
    }

    // Restores every lease, last one first; reports the failures only after trying all.
    method Cleanup(client: Services, leases: seq<Lease>) returns (r: Result<(), Error>)
      modifies client
      ensures Within(old(client.world), client.world, AllSettings(leases))
      ensures r.Ok? ==> Same(client.world, Unwind(old(client.world), leases))
      ensures r.Err? ==> r.error.CleanupFailed? && r.error.targets != []
      ensures r.Err? ==> forall t :: t in r.error.targets ==> exists i :: 0 <= i < |leases| && leases[i].target == t
      ensures r.Err? ==> forall i :: 0 <= i < |leases| && leases[i].target !in r.error.targets ==>
              Back(client.world, leases, i)
      ensures old(client.troubles) <= client.troubles
      ensures r.Err? ==> forall t :: t in r.error.targets ==>
                Named(leases, t, client.troubles[|old(client.troubles)|..])
    {
      var failures: seq<string> := [];
      ghost var before := client.world;
      assert leases[|leases|..] == [];
      for i := |leases| downto 0
        invariant Within(before, client.world, AllSettings(leases[i..]))
        invariant failures == [] ==> Same(client.world, Unwind(before, leases[i..]))
        invariant forall t :: t in failures ==> exists j :: i <= j < |leases| && leases[j].target == t
        invariant old(client.troubles) <= client.troubles
        invariant forall t :: t in failures ==> Named(leases, t, client.troubles[|old(client.troubles)|..])
        invariant forall j :: i <= j < |leases| && leases[j].target !in failures ==> Back(client.world, leases, j)
      {
        var lease := leases[i];
        assert leases[i..][1..] == leases[i + 1..];
        ghost var w, met := client.world, client.troubles[|old(client.troubles)|..];
        var restored := Restore(client, lease.url + lease.path, lease.original);
        BackStep(w, client.world, leases, i, restored.Ok?);
        WithinTransitive(before, w, client.world, AllSettings(leases[i + 1..]),
                         Settings(lease.Endpoint(), lease.original));
        WithinLarger(before, client.world,
                     AllSettings(leases[i + 1..]) + Settings(lease.Endpoint(), lease.original),
                     AllSettings(leases[i..]));
        ghost var now := client.troubles[|old(client.troubles)|..];
        assert now == met || now == met + [lease.Endpoint()];
        assert forall t :: Named(leases, t, met) ==> Named(leases, t, now);
        if restored.Err? {
          assert leases[i].Endpoint() in now;
          failures := failures + [lease.target];
        } else if failures == [] {
          RestoredSame(w, Unwind(before, leases[i + 1..]), lease);
          SameTransitive(client.world, Restored(w, lease), Unwind(before, leases[i..]));
        }
      }
      assert leases[0..] == leases;
      if failures != [] {
        return Err(CleanupFailed(failures));
      }
      return Ok(());
    }

    // The failure path of `Inject`: `w` is the world before the contract that failed.
    method UnwindEarlier(client: Services, leases: seq<Lease>, target: string, cause: Error,
                         ghost before: World, ghost w: World, ghost allowed: set<(Location, Json)>)
      returns (error: Error)
      requires Within(before, client.world, allowed) && AllSettings(leases) <= allowed
      requires Same(Unwind(w, leases), before)
      requires !cause.SaysCleanupFailed() ==> Same(client.world, w)
      modifies client
      ensures Within(before, client.world, allowed)
      ensures error == cause || error == UnwindFailed(target)
      ensures old(client.troubles) <= client.troubles
      ensures client.troubles == old(client.troubles) ==> error == cause
      ensures !error.SaysCleanupFailed() ==> Same(client.world, before)
      ensures AllTouched(leases) <= old(client.world).Keys ==> client.world.Keys == old(client.world).Keys
    {
      ghost var w' := client.world;
      var undone := Cleanup(client, leases);
      WithinStep(before, w', client.world, allowed, AllSettings(leases));
      if AllTouched(leases) <= w'.Keys {
        TouchedPresent(w', leases);
        WithinKeys(w', client.world, AllSettings(leases));
      }
      if undone.Err? {
        assert undone.error.targets[0] in undone.error.targets;
        return UnwindFailed(target);
      }
      if !cause.SaysCleanupFailed() {
        UnwindSame(w', w, leases);
        SameTransitive(Unwind(w', leases), Unwind(w, leases), before);
        SameTransitive(client.world, Unwind(w', leases), before);
      }
      return cause;
    }

    // Contract i failed: unwinds the earlier ones and says so if that fails too.
    method Abort(client: Services, contracts: seq<Contract>, i: nat, leases: seq<Lease>, cause: Error,
                 ghost before: World, ghost w: World)
      returns (error: Error)
      requires EachValid(serviceUrls, contracts) && i < |contracts| && ValidContract(serviceUrls, contracts[i])
      requires Progress(serviceUrls, before, w, leases, contracts, i)
      requires Within(w, client.world, DeclaredBy(serviceUrls, contracts[i]))
      requires Restorable(serviceUrls, contracts) ==> client.world.Keys == w.Keys
      requires !cause.SaysCleanupFailed() ==> Same(client.world, w)
      modifies client
      ensures Within(before, client.world, Declared(serviceUrls, contracts))
      ensures error == cause || error == UnwindFailed(contracts[i].target)
      ensures !error.SaysCleanupFailed() ==> Same(client.world, before)
      ensures !error.SaysCleanupFailed() && Restorable(serviceUrls, contracts) ==> client.world == before
      ensures Restorable(serviceUrls, contracts) ==> client.world.Keys == before.Keys
      ensures old(client.troubles) <= client.troubles
      ensures client.troubles == old(client.troubles) ==> error == cause
    {
      DeclaredMember(serviceUrls, contracts, i);
      WithinStep(before, w, client.world, Declared(serviceUrls, contracts), DeclaredBy(serviceUrls, contracts[i]));
      LeasedSettings(serviceUrls, leases, contracts, i);
      error :=
        UnwindEarlier(client, leases, contracts[i].target, cause, before, w, Declared(serviceUrls, contracts));
      if Restorable(serviceUrls, contracts) && !error.SaysCleanupFailed() {
        SameKeysEqual(client.world, before);
      }
    }

    // All or reported: every contract applied, or nothing changed, or the error says that a
    // cleanup failed; in every case only declared settings can differ.
    method Inject(client: Services, declared: seq<Contract>) returns (r: Result<seq<Lease>, Error>)
      modifies client
      ensures r.Err? ==> (r.error.InvalidContract? <==> !ValidContracts(serviceUrls, declared))
      ensures r.Ok? ==> ValidContracts(serviceUrls, declared) && Leased(serviceUrls, r.value, declared)
      ensures r.Ok? ==> Same(client.world, Applied(old(client.world), serviceUrls, declared))
      ensures r.Ok? ==> Same(Unwind(client.world, r.value), old(client.world))
      ensures r.Ok? && Restorable(serviceUrls, declared) ==> AllTouched(r.value) <= client.world.Keys
      ensures r.Err? && !r.error.SaysCleanupFailed() ==> Same(client.world, old(client.world))
      ensures r.Err? && !r.error.SaysCleanupFailed() && Restorable(serviceUrls, declared) ==>
              client.world == old(client.world)
      ensures Restorable(serviceUrls, declared) ==> client.world.Keys == old(client.world).Keys
      ensures if ValidContracts(serviceUrls, declared)
              then Within(old(client.world), client.world, Declared(serviceUrls, declared))
              else client.world == old(client.world)
      ensures old(client.troubles) <= client.troubles
      ensures r.Ok? ==> Ready(old(client.world), serviceUrls, declared)
      ensures client.troubles == old(client.troubles) && ValidContracts(serviceUrls, declared) ==>
                (r.Ok? <==> Ready(old(client.world), serviceUrls, declared))
      ensures r.Err? && client.troubles == old(client.troubles) ==> !r.error.SaysCleanupFailed()
    {
      var checked := Contracts(declared);
      if checked.Err? {
        return Err(checked.error);
      }
      var contracts := checked.value;
      var leases: seq<Lease> := [];
      ghost var before := client.world;
      for i := 0 to |contracts|
        invariant Progress(serviceUrls, before, client.world, leases, contracts, i)
        invariant Ready(before, serviceUrls, contracts[..i]) && old(client.troubles) <= client.troubles
      {
        ghost var w := client.world;
        var c := contracts[i];
        DeclaredMember(serviceUrls, contracts, i);
        if Restorable(serviceUrls, contracts) {
          Shelters(serviceUrls, contracts, i, leases, w);
        }
        var applied := InjectOne(client, c);
        if applied.Err? {
          NotReady(before, w, serviceUrls, contracts, i);
          var error := Abort(client, contracts, i, leases, applied.error, before, w);
          return Err(error);
        }
        ReadyMore(before, w, serviceUrls, contracts, i);
        ProgressStep(serviceUrls, before, w, client.world, leases, applied.value, contracts, i);
        leases := leases + [applied.value];
      }
      assert contracts[..|contracts|] == contracts;
      return Ok(leases);
    }

    // Cleaning up, once more if the first attempt fails: a success at either attempt is complete.
    method CleanupTwice(client: Services, leases: seq<Lease>, ghost before: World) returns (r: Result<(), Error>)
      requires Same(Unwind(client.world, leases), before)
      modifies client
      ensures r.Ok? ==> Same(client.world, before)
      ensures AllTouched(leases) <= old(client.world).Keys ==> client.world.Keys == old(client.world).Keys
      ensures old(client.troubles) <= client.troubles
      ensures client.troubles == old(client.troubles) ==> r.Ok?
    {
      ghost var w := client.world;
      r := Cleanup(client, leases);
      ghost var w' := client.world;
      WithinPresent(w, w', leases);
      if r.Ok? {
        SameTransitive(w', Unwind(w, leases), before);
      } else {
        assert r.error.targets[0] in r.error.targets;
        WithinAgrees(w, w', leases);
        UnwindForgets(w, w', leases, {});
        r := Cleanup(client, leases);
        WithinPresent(w', client.world, leases);
        if r.Ok? {
          SameTransitive(client.world, Unwind(w', leases), Unwind(w, leases));
          SameTransitive(client.world, Unwind(w, leases), before);
        }
      }
    }

    // Injecting and then cleaning up: once a cleanup succeeds every service reads as before, and is
    // exactly as before when no setting is first declared null. Without trouble it succeeds exactly
    // for a valid declaration whose baselines hold.
    method InjectThenCleanup(client: Services, declared: seq<Contract>) returns (r: Result<(), Error>)
      modifies client
      ensures r.Ok? ==> Same(client.world, old(client.world))
      ensures r.Ok? && Restorable(serviceUrls, declared) ==> client.world == old(client.world)
      ensures old(client.troubles) <= client.troubles
      ensures client.troubles == old(client.troubles) ==>
                (r.Ok? <==> ValidContracts(serviceUrls, declared) && Ready(old(client.world), serviceUrls, declared))
    {
      var injected := Inject(client, declared);
      if injected.Err? {
        return Err(injected.error);
      }
      ghost var before := old(client.world);
      r := CleanupTwice(client, injected.value, before);
      if r.Ok? && Restorable(serviceUrls, declared) {
        SameKeysEqual(client.world, before);
      }
    }
  }

  // A cleanup of existing settings neither adds nor removes one.
  lemma WithinPresent(w: World, w': World, leases: seq<Lease>)
    requires Within(w, w', AllSettings(leases))
    ensures AllTouched(leases) <= w.Keys ==> w'.Keys == w.Keys
  {
    if AllTouched(leases) <= w.Keys {
      TouchedPresent(w, leases);
      WithinKeys(w, w', AllSettings(leases));
    }
  }

  lemma SameTransitive(a: World, b: World, c: World)
    requires Same(a, b) && Same(b, c)
    ensures Same(a, c)
  {
    forall q ensures Lookup(a, q) == Lookup(c, q) {
      assert Lookup(a, q) == Lookup(b, q) == Lookup(c, q);
    }
  }

  lemma BaselineReads(w: World, endpoint: string, inject: Payload, cleanup: Payload)
    requires inject.Keys == cleanup.Keys
    requires cleanup == map k | k in inject :: Get(Config(w, endpoint), k)
    ensures Holds(w, endpoint, cleanup)
  {
    forall k | k in cleanup ensures Lookup(w, Location(endpoint, k)) == cleanup[k] {
      ConfigReads(w, endpoint, k);
    }
  }

  // Whatever part of an injection took effect, writing the verified baseline back undoes it.
  lemma RestoreUndoes(w: World, w': World, endpoint: string, inject: Payload, cleanup: Payload)
    requires Within(w, w', Settings(endpoint, inject)) && inject.Keys == cleanup.Keys
    requires Holds(w, endpoint, cleanup)
    ensures Same(Overlay(w', endpoint, cleanup), w)
  {
    forall q ensures Lookup(Overlay(w', endpoint, cleanup), q) == Lookup(w, q) {
      assert Read(w', q) == Read(w, q) || (Read(w', q).Some? && (q, Read(w', q).value) in Settings(endpoint, inject));
      if q.endpoint == endpoint && q.key in cleanup {
        assert q == Location(endpoint, q.key);
      }
    }
  }

  lemma RestoredSame(w: World, w': World, lease: Lease)
    requires Same(w, w')
    ensures Same(Restored(w, lease), Restored(w', lease))
  {
    RestoredAgree(w, w', lease, {});
  }

  lemma WithinStep(a: World, b: World, c: World, s: set<(Location, Json)>, t: set<(Location, Json)>)
    requires Within(a, b, s) && Within(b, c, t) && t <= s
    ensures Within(a, c, s)
  {
    WithinTransitive(a, b, c, s, t);
    assert s + t == s;
  }

  lemma {:induction false} DeclaredMember(urls: map<string, string>, cs: seq<Contract>, i: nat)
    requires EachValid(urls, cs) && i < |cs|
    ensures ValidContract(urls, cs[i]) && DeclaredBy(urls, cs[i]) <= Declared(urls, cs)
  {
    if i < |cs| - 1 {
      assert EachValid(urls, cs[..|cs| - 1]);
      DeclaredMember(urls, cs[..|cs| - 1], i);
    }
  }

  lemma {:induction false} AllSettingsMember(leases: seq<Lease>, s: set<(Location, Json)>)
    requires forall i :: 0 <= i < |leases| ==> Settings(leases[i].Endpoint(), leases[i].original) <= s
    ensures AllSettings(leases) <= s
  {
    if leases != [] {
      AllSettingsMember(leases[1..], s);
    }
  }

  lemma LeasedSettings(urls: map<string, string>, leases: seq<Lease>, cs: seq<Contract>, n: nat)
    requires EachValid(urls, cs) && n <= |cs| && EachValid(urls, cs[..n]) && Leased(urls, leases, cs[..n])
    ensures AllSettings(leases) <= Declared(urls, cs)
  {
    forall i | 0 <= i < |leases| ensures Settings(leases[i].Endpoint(), leases[i].original) <= Declared(urls, cs) {
      assert Records(urls, leases[i], cs[..n][i]);
      DeclaredMember(urls, cs, i);
    }
    AllSettingsMember(leases, Declared(urls, cs));
  }

  lemma {:induction false} TouchedPresent(w: World, leases: seq<Lease>)
    requires AllTouched(leases) <= w.Keys
    ensures Present(w, AllSettings(leases))
  {
    if leases != [] {
      TouchedPresent(w, leases[1..]);
      forall x | x in Settings(leases[0].Endpoint(), leases[0].original) ensures x.0 in w {
        assert x.0 in Touched(leases[0]);
      }
    }
  }

  lemma {:induction false} SettingsTouched(leases: seq<Lease>, x: (Location, Json))
    requires x in AllSettings(leases)
    ensures x.0 in AllTouched(leases)
  {
    if x in Settings(leases[0].Endpoint(), leases[0].original) {
      assert x.0 in Touched(leases[0]);
    } else {
      SettingsTouched(leases[1..], x);
    }
  }

  lemma WithinAgrees(w: World, w': World, leases: seq<Lease>)
    requires Within(w, w', AllSettings(leases))
    ensures AgreeOff(w, w', {} + AllTouched(leases))
  {
    forall q | q !in AllTouched(leases) ensures Lookup(w, q) == Lookup(w', q) {
      assert Read(w', q) == Read(w, q) || (Read(w', q).Some? && (q, Read(w', q).value) in AllSettings(leases));
      if Read(w', q) != Read(w, q) {
        SettingsTouched(leases, (q, Read(w', q).value));
      }
    }
  }

  // A lease whose restoration gives back the world before it extends the unwinding.
  lemma LeaseAdded(w: World, earlier: World, before: World, leases: seq<Lease>, lease: Lease)
    requires Same(Restored(w, lease), earlier) && Same(Unwind(earlier, leases), before)
    ensures Same(Unwind(w, leases + [lease]), before)
    ensures AllTouched(leases + [lease]) == AllTouched(leases) + Touched(lease)
  {
    UnwindSnoc(w, leases, lease);
    UnwindSame(Restored(w, lease), earlier, leases);
    SameTransitive(Unwind(w, leases + [lease]), Unwind(earlier, leases), before);
    TouchedSnoc(leases, lease);
  }

  lemma {:induction false} TouchedSnoc(leases: seq<Lease>, lease: Lease)
    ensures AllTouched(leases + [lease]) == AllTouched(leases) + Touched(lease)
  {
    if leases == [] {
      assert [lease][1..] == [];
    } else {
      assert (leases + [lease])[1..] == leases[1..] + [lease];
      TouchedSnoc(leases[1..], lease);
    }
  }

  lemma AppliedStep(before: World, w: World, w': World, urls: map<string, string>, cs: seq<Contract>, i: nat)
    requires EachValid(urls, cs) && i < |cs| && EachValid(urls, cs[..i]) && EachValid(urls, cs[..i + 1])
    requires ValidContract(urls, cs[i])
    requires Same(w, Applied(before, urls, cs[..i]))
    requires Same(w', Overlay(w, urls[cs[i].target] + cs[i].path, cs[i].inject))
    ensures Same(w', Applied(before, urls, cs[..i + 1]))
  {
    var c := cs[i];
    assert cs[..i + 1][..i] == cs[..i];
    var lease := Lease(c.target, urls[c.target], c.path, c.inject, c.inject);
    RestoredSame(w, Applied(before, urls, cs[..i]), lease);
    SameTransitive(w', Restored(w, lease), Applied(before, urls, cs[..i + 1]));
  }

  lemma ProgressStep(urls: map<string, string>, before: World, w: World, w': World, leases: seq<Lease>, lease: Lease,
                     cs: seq<Contract>, i: nat)
    requires EachValid(urls, cs) && i < |cs| && Progress(urls, before, w, leases, cs, i)
    requires ValidContract(urls, cs[i]) && Records(urls, lease, cs[i])
    requires Within(w, w', DeclaredBy(urls, cs[i]))
    requires Same(w', Overlay(w, urls[cs[i].target] + cs[i].path, cs[i].inject))
    requires Same(Restored(w', lease), w)
    requires Restorable(urls, cs) ==> w'.Keys == w.Keys && Touched(lease) <= w'.Keys
    ensures Progress(urls, before, w', leases + [lease], cs, i + 1)
  {
    LeasedStep(urls, leases, lease, cs, i);
    assert Within(before, w', Declared(urls, cs)) by {
      DeclaredMember(urls, cs, i);
      WithinStep(before, w, w', Declared(urls, cs), DeclaredBy(urls, cs[i]));
    }
    LeaseAdded(w', w, before, leases, lease);
    assert Same(w', Applied(before, urls, cs[..i + 1])) by {
      AppliedStep(before, w, w', urls, cs, i);
    }
  }

  lemma LeasedStep(urls: map<string, string>, leases: seq<Lease>, lease: Lease, cs: seq<Contract>, i: nat)
    requires EachValid(urls, cs) && i < |cs| && EachValid(urls, cs[..i]) && Leased(urls, leases, cs[..i])
    requires ValidContract(urls, cs[i]) && Records(urls, lease, cs[i])
    ensures EachValid(urls, cs[..i + 1]) && Leased(urls, leases + [lease], cs[..i + 1])
  {
    forall j | 0 <= j < i + 1
      ensures ValidContract(urls, cs[..i + 1][j]) && Records(urls, (leases + [lease])[j], cs[..i + 1][j])
    {
      if j < i { assert cs[..i + 1][j] == cs[..i][j]; }
    }
  }

  lemma {:induction false} OriginalsTouched(urls: map<string, string>, cs: seq<Contract>, leases: seq<Lease>)
    requires EachValid(urls, cs) && Leased(urls, leases, cs)
    ensures Originals(urls, cs).Keys == AllTouched(leases)
    decreases |cs|
  {
    if cs != [] {
      var n := |cs| - 1;
      assert ValidContract(urls, cs[n]) && Records(urls, leases[n], cs[n]);
      OriginalsTouched(urls, cs[..n], leases[..n]);
      assert leases == leases[..n] + [leases[n]];
      TouchedSnoc(leases[..n], leases[n]);
      assert Baseline(urls, cs[n]).Keys == Touched(leases[n]);
    }
  }

  // Later contracts do not change which baseline comes first.
  lemma {:induction false} OriginalsPrefix(urls: map<string, string>, cs: seq<Contract>, n: nat)
    requires EachValid(urls, cs) && n <= |cs| && EachValid(urls, cs[..n])
    ensures Originals(urls, cs[..n]).Keys <= Originals(urls, cs).Keys
    ensures forall q :: q in Originals(urls, cs[..n]) ==> Originals(urls, cs[..n])[q] == Originals(urls, cs)[q]
    decreases |cs|
  {
    if n == |cs| {
      assert cs[..n] == cs;
    } else {
      assert cs[..|cs| - 1][..n] == cs[..n];
      OriginalsPrefix(urls, cs[..|cs| - 1], n);
    }
  }

  // A setting that no earlier contract touches is not declared null by a restorable declaration.
  lemma FirstTouch(urls: map<string, string>, cs: seq<Contract>, i: nat, k: string)
    requires Restorable(urls, cs) && i < |cs| && EachValid(urls, cs[..i]) && ValidContract(urls, cs[i])
    requires k in cs[i].cleanup && Location(urls[cs[i].target] + cs[i].path, k) !in Originals(urls, cs[..i])
    ensures cs[i].cleanup[k] != Null
  {
    var q, upTo := Location(urls[cs[i].target] + cs[i].path, k), cs[..i + 1];
    assert EachValid(urls, upTo) && upTo[..i] == cs[..i] && upTo[i] == cs[i];
    assert q in Baseline(urls, cs[i]) && Baseline(urls, cs[i])[q] == cs[i].cleanup[k];
    assert Originals(urls, upTo)[q] == cs[i].cleanup[k];
    OriginalsPrefix(urls, cs, i + 1);
  }

  // Before each contract of a restorable declaration, its baseline names existing settings only.
  lemma Shelters(urls: map<string, string>, cs: seq<Contract>, i: nat, leases: seq<Lease>, w: World)
    requires Restorable(urls, cs) && i < |cs| && EachValid(urls, cs[..i]) && ValidContract(urls, cs[i])
    requires Leased(urls, leases, cs[..i]) && AllTouched(leases) <= w.Keys
    ensures Sheltered(w, urls[cs[i].target] + cs[i].path, cs[i].cleanup)
  {
    var c := cs[i];
    var endpoint := urls[c.target] + c.path;
    OriginalsTouched(urls, cs[..i], leases);
    if Holds(w, endpoint, c.cleanup) {
      forall k | k in c.cleanup ensures Location(endpoint, k) in w {
        if Location(endpoint, k) !in Originals(urls, cs[..i]) {
          FirstTouch(urls, cs, i, k);
          assert Lookup(w, Location(endpoint, k)) != Null;
        }
      }
    }
  }

  // ----- The condition on baselines is exact

  // Every baseline holds when its contract's turn comes, so the injection can succeed.
  ghost predicate Ready(w: World, urls: map<string, string>, cs: seq<Contract>)
    requires EachValid(urls, cs)
  {
    cs == []
    || var init, c := cs[..|cs| - 1], cs[|cs| - 1];
       assert ValidContract(urls, c);
       Ready(w, urls, init) && Holds(Applied(w, urls, init), urls[c.target] + c.path, c.cleanup)
  }

  lemma HoldsSame(w: World, w': World, endpoint: string, p: Payload)
    requires Same(w, w')
    ensures Holds(w, endpoint, p) <==> Holds(w', endpoint, p)
  {
    assert forall k :: k in p ==> Lookup(w, Location(endpoint, k)) == Lookup(w', Location(endpoint, k));
  }

  // Readiness grows by one contract exactly when its baseline holds in the world reached so far.
  lemma ReadyMore(before: World, w: World, urls: map<string, string>, cs: seq<Contract>, i: nat)
    requires EachValid(urls, cs) && i < |cs| && EachValid(urls, cs[..i]) && ValidContract(urls, cs[i])
    requires Ready(before, urls, cs[..i]) && Same(w, Applied(before, urls, cs[..i]))
    ensures EachValid(urls, cs[..i + 1])
    ensures Ready(before, urls, cs[..i + 1]) <==> Holds(w, urls[cs[i].target] + cs[i].path, cs[i].cleanup)
  {
    assert cs[..i + 1][..i] == cs[..i];
    HoldsSame(w, Applied(before, urls, cs[..i]), urls[cs[i].target] + cs[i].path, cs[i].cleanup);
  }

  lemma {:induction false} ReadyPrefix(w: World, urls: map<string, string>, cs: seq<Contract>, n: nat)
    requires EachValid(urls, cs) && Ready(w, urls, cs) && n <= |cs| && EachValid(urls, cs[..n])
    ensures Ready(w, urls, cs[..n])
    decreases |cs|
  {
    if n == |cs| {
      assert cs[..n] == cs;
    } else {
      assert cs[..|cs| - 1][..n] == cs[..n];
      ReadyPrefix(w, urls, cs[..|cs| - 1], n);
    }
  }

  // A baseline that does not hold when its turn comes makes the whole declaration unready.
  lemma NotReady(before: World, w: World, urls: map<string, string>, cs: seq<Contract>, i: nat)
    requires EachValid(urls, cs) && i < |cs| && EachValid(urls, cs[..i]) && ValidContract(urls, cs[i])
    requires Ready(before, urls, cs[..i]) && Same(w, Applied(before, urls, cs[..i]))
    ensures !Holds(w, urls[cs[i].target] + cs[i].path, cs[i].cleanup) ==> !Ready(before, urls, cs)
  {
    ReadyMore(before, w, urls, cs, i);
    if Ready(before, urls, cs) {
      ReadyPrefix(before, urls, cs, i + 1);
    }
  }

  ghost function LeasesOf(urls: map<string, string>, cs: seq<Contract>): (leases: seq<Lease>)
    requires EachValid(urls, cs)
    ensures Leased(urls, leases, cs)
  {
    if cs == [] then []
    else
      var init, c := cs[..|cs| - 1], cs[|cs| - 1];
      assert ValidContract(urls, c);
      var leases := LeasesOf(urls, init) + [Lease(c.target, urls[c.target], c.path, c.cleanup, c.inject)];
      LeasedStep(urls, LeasesOf(urls, init), leases[|leases| - 1], cs, |init|);
      assert cs[..|cs|] == cs;
      leases
  }

  // Applying every contract and unwinding every lease writes the first baselines over the world.
  lemma {:induction false} RoundTripIs(w: World, urls: map<string, string>, cs: seq<Contract>)
    requires EachValid(urls, cs)
    ensures Unwind(Applied(w, urls, cs), LeasesOf(urls, cs)) == w + Originals(urls, cs)
    decreases |cs|
  {
    if cs == [] {
      assert w + map[] == w;
    } else {
      var init, c := cs[..|cs| - 1], cs[|cs| - 1];
      assert ValidContract(urls, c);
      var lease := Lease(c.target, urls[c.target], c.path, c.cleanup, c.inject);
      var before := Applied(w, urls, init);
      UnwindSnoc(Applied(w, urls, cs), LeasesOf(urls, init), lease);
      BaselineOver(before, urls, c);
      UnwindOver(before, Baseline(urls, c), urls, init);
      RoundTripIs(w, urls, init);
      OriginalsTouched(urls, init, LeasesOf(urls, init));
      FirstWins(w, Originals(urls, init), Baseline(urls, c));
    }
  }

  lemma FirstWins(w: World, a: World, b: World)
    ensures w + a + (b - a.Keys) == w + (b + a)
  {}

  // Writing a contract's baseline over its injection is writing it over the world before.
  lemma BaselineOver(w: World, urls: map<string, string>, c: Contract)
    requires ValidContract(urls, c)
    ensures var endpoint := urls[c.target] + c.path;
            Overlay(Overlay(w, endpoint, c.inject), endpoint, c.cleanup) == w + Baseline(urls, c)
  {
    var endpoint := urls[c.target] + c.path;
    var injected, original := map k | k in c.inject :: Location(endpoint, k) := c.inject[k], Baseline(urls, c);
    assert injected.Keys == original.Keys;
    assert w + injected + original == w + original;
  }

  // Settings written before an unwinding survive it where no lease touches them.
  lemma UnwindOver(w: World, extra: World, urls: map<string, string>, cs: seq<Contract>)
    requires EachValid(urls, cs)
    ensures var leases := LeasesOf(urls, cs);
            Unwind(w + extra, leases) == Unwind(w, leases) + (extra - AllTouched(leases))
  {
    UnwindExtra(w, extra, LeasesOf(urls, cs));
  }

  lemma {:induction false} UnwindExtra(w: World, extra: World, leases: seq<Lease>)
    ensures Unwind(w + extra, leases) == Unwind(w, leases) + (extra - AllTouched(leases))
  {
    if leases == [] {
      assert extra - {} == extra;
    } else {
      UnwindExtra(w, extra, leases[1..]);
      RestoredExtra(Unwind(w, leases[1..]), extra - AllTouched(leases[1..]), leases[0]);
      assert extra - AllTouched(leases[1..]) - Touched(leases[0]) == extra - AllTouched(leases);
    }
  }

  lemma RestoredExtra(w: World, extra: World, lease: Lease)
    ensures Restored(w + extra, lease) == Restored(w, lease) + (extra - Touched(lease))
  {
    var original := map k | k in lease.original :: Location(lease.Endpoint(), k) := lease.original[k];
    assert original.Keys == Touched(lease);
    LastWins(w, extra, original);
  }

  lemma LastWins(w: World, a: World, b: World)
    ensures w + a + b == w + b + (a - b.Keys)
  {}

  // A world in which the injection can succeed reads as the first baselines say.
  lemma {:induction false} ReadyReads(w: World, urls: map<string, string>, cs: seq<Contract>)
    requires EachValid(urls, cs) && Ready(w, urls, cs)
    ensures forall q :: q in Originals(urls, cs) ==> Lookup(w, q) == Originals(urls, cs)[q]
    ensures forall q :: q !in Originals(urls, cs) ==> Read(Applied(w, urls, cs), q) == Read(w, q)
    decreases |cs|
  {
    if cs != [] {
      var init, c := cs[..|cs| - 1], cs[|cs| - 1];
      assert ValidContract(urls, c);
      ReadyReads(w, urls, init);
      forall q | q in Originals(urls, cs) && q !in Originals(urls, init)
        ensures Lookup(w, q) == Originals(urls, cs)[q]
      {
        assert q == Location(urls[c.target] + c.path, q.key) && q.key in c.cleanup;
        assert Read(Applied(w, urls, init), q) == Read(w, q);
      }
      forall q | q !in Originals(urls, cs) ensures Read(Applied(w, urls, cs), q) == Read(w, q) {
        assert q !in Baseline(urls, c);
        assert q.endpoint == urls[c.target] + c.path ==> q.key !in c.inject by {
          if q.endpoint == urls[c.target] + c.path {
            assert q == Location(urls[c.target] + c.path, q.key);
          }
        }
      }
    }
  }

  lemma {:induction false} ReadySame(w: World, w': World, urls: map<string, string>, cs: seq<Contract>)
    requires EachValid(urls, cs) && Ready(w, urls, cs) && Same(w, w')
    ensures Ready(w', urls, cs) && Same(Applied(w, urls, cs), Applied(w', urls, cs))
    decreases |cs|
  {
    if cs != [] {
      var init, c := cs[..|cs| - 1], cs[|cs| - 1];
      assert ValidContract(urls, c);
      ReadySame(w, w', urls, init);
      var lease := Lease(c.target, urls[c.target], c.path, c.inject, c.inject);
      RestoredSame(Applied(w, urls, init), Applied(w', urls, init), lease);
    }
  }

  // Undoing the injection of a restorable declaration gives back the world.
  lemma RestorableReturns(w: World, urls: map<string, string>, cs: seq<Contract>)
    requires Restorable(urls, cs) && Ready(w, urls, cs)
    ensures Unwind(Applied(w, urls, cs), LeasesOf(urls, cs)) == w
  {
    RoundTripIs(w, urls, cs);
    ReadyReads(w, urls, cs);
    NothingNew(w, Originals(urls, cs));
  }

  lemma NothingNew(w: World, settings: World)
    requires forall q :: q in settings ==> settings[q] != Null && Lookup(w, q) == settings[q]
    ensures w + settings == w
  {
    forall q | q in settings ensures q in w && w[q] == settings[q] {
      assert Lookup(w, q) == settings[q];
    }
  }

  // If a setting is first declared null, a world that lacks it gains it.
  lemma UnrestorableGains(w: World, urls: map<string, string>, cs: seq<Contract>, q: Location)
    requires EachValid(urls, cs) && Ready(w, urls, cs) && q in Originals(urls, cs) && Originals(urls, cs)[q] == Null
    ensures Ready(w - {q}, urls, cs) && Unwind(Applied(w - {q}, urls, cs), LeasesOf(urls, cs)) != w - {q}
  {
    ReadyReads(w, urls, cs);
    assert Same(w, w - {q});
    ReadySame(w, w - {q}, urls, cs);
    RoundTripIs(w - {q}, urls, cs);
    assert q in (w - {q}) + Originals(urls, cs);
  }

  // Undoing an injection gives back every world it can succeed in if and only if no setting is
  // first touched by a contract that declares it null, because a missing key also reads as null.
  lemma NullBaselinesExact(urls: map<string, string>, cs: seq<Contract>, possible: World)
    requires EachValid(urls, cs) && Ready(possible, urls, cs)
    ensures Restorable(urls, cs) <==>
            forall w: World :: Ready(w, urls, cs) ==> Unwind(Applied(w, urls, cs), LeasesOf(urls, cs)) == w
  {
    if Restorable(urls, cs) {
      forall w: World | Ready(w, urls, cs) ensures Unwind(Applied(w, urls, cs), LeasesOf(urls, cs)) == w {
        RestorableReturns(w, urls, cs);
      }
    } else {
      var q :| q in Originals(urls, cs) && Originals(urls, cs)[q] == Null;
      UnrestorableGains(possible, urls, cs, q);
    }
  }
}
