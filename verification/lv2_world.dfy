/** The parts of `LV2World` that feed the worker machinery: handing out
    WorkThreads round-robin, and deciding whether the host supports a
    plugin's required features. The plugin-description library is replaced
    by a map from plugin URI to what it says about the plugin. */
module LV2World {
  import opened Bytes
  import opened Options
  import WorkThread

  /** `LV2_WORKER__schedule`: the URI of the LV2 Worker feature, which this
      host always provides. */
  const WORKER_SCHEDULE: string := "http://lv2plug.in/ns/ext/worker#schedule"

  /** Request-queue size given to each WorkThread the world creates. */
  const WORK_THREAD_BUFSIZE: uint32 := 2048

  /** What the host asks of a plugin's description: the URIs of the
      features it requires, in the order they are listed. */
  datatype Plugin = Plugin(requiredFeatures: seq<string>)

  /** The world: the WorkThreads created so far, the round-robin cursor and
      its bound, the host's feature URIs, and the installed plugins. */
  datatype World = World(
    threads: seq<WorkThread.Thread>,
    currentThread: int,
    numThreads: int,
    features: seq<string>,
    plugins: map<string, Plugin>)
  {
    /** The cursor is a valid slot, every slot below the cursor already has
        a thread, and there are at most numThreads threads. */
    predicate Valid()
    {
      && 0 <= currentThread < numThreads
      && currentThread <= |threads| <= numThreads
    }
  }

  /** The `LV2World` constructor as far as the worker threads go: no thread
      yet, cursor 0, two threads at most. */
  function NewWorld(features: seq<string>, plugins: map<string, Plugin>): (w: World)
    ensures w.Valid() && w.threads == [] && w.currentThread == 0 && w.numThreads == 2
    ensures w.features == features && w.plugins == plugins
  {
    World([], 0, 2, features, plugins)
  }

  /** The thread `getWorkThread` creates for an empty slot. */
  function FreshThread(): WorkThread.Thread
  {
    WorkThread.NewWorkThread(WORK_THREAD_BUFSIZE)
  }

  /** `LV2World::getWorkThread`: create the thread for the current slot
      when it does not exist yet, return that slot, and advance the cursor,
      wrapping to 0 at `numThreads`. */
  function GetWorkThread(w: World): (res: (World, nat))
    requires w.Valid()
    ensures res.0.Valid()
    ensures res.1 == w.currentThread && res.1 < |res.0.threads|
    ensures res.0.currentThread == if w.currentThread == w.numThreads - 1 then 0 else w.currentThread + 1
    ensures |w.threads| <= |res.0.threads| <= w.numThreads
    ensures res.0.threads[..|w.threads|] == w.threads
    ensures |w.threads| <= w.currentThread ==>
              res.0.threads == w.threads + [FreshThread()]
    ensures |w.threads| > w.currentThread ==> res.0.threads == w.threads
    ensures res.0 == w.(threads := res.0.threads, currentThread := res.0.currentThread)
  {
    var threads :=
      if |w.threads| <= w.currentThread then w.threads + [FreshThread()]
      else w.threads;
    var index := w.currentThread;
    var next := if w.currentThread + 1 >= w.numThreads then 0 else w.currentThread + 1;
    (w.(threads := threads, currentThread := next), index)
  }

  /** The slots returned by `n` consecutive calls of `getWorkThread`, and
      the world after them. */
  function GetWorkThreads(w: World, n: nat): (res: (World, seq<nat>))
    requires w.Valid()
    ensures res.0.Valid() && |res.1| == n
    ensures res.0.numThreads == w.numThreads
    decreases n
  {
    if n == 0 then (w, [])
    else
      var (w1, i) := GetWorkThread(w);
      var (w2, rest) := GetWorkThreads(w1, n - 1);
      (w2, [i] + rest)
  }

  /** The slots a cursor at `c` passes through in `n` steps, wrapping at `m`. */
  function CursorSlots(c: int, m: int, n: nat): (slots: seq<int>)
    ensures |slots| == n
    decreases n
  {
    if n == 0 then [] else [c] + CursorSlots(if c + 1 >= m then 0 else c + 1, m, n - 1)
  }

  /** The slots returned by successive calls depend only on the cursor. */
  lemma {:induction false} GetWorkThreadsFollowCursor(w: World, n: nat)
    requires w.Valid()
    ensures GetWorkThreads(w, n).1 == CursorSlots(w.currentThread, w.numThreads, n)
    decreases n
  {
    if n > 0 {
      GetWorkThreadsFollowCursor(GetWorkThread(w).0, n - 1);
    }
  }

  /** A cursor that wraps at `m` visits `(c + k) mod m` at step k. */
  lemma {:induction false} CursorSlotsModulo(c: int, m: int, n: nat, k: nat)
    requires 0 <= c < m && k < n
    ensures CursorSlots(c, m, n)[k] == (c + k) % m
    decreases n
  {
    if k > 0 {
      CursorSlotsModulo(if c + 1 >= m then 0 else c + 1, m, n - 1, k - 1);
      CursorAdvances(c, m, k);
    }
  }

  /** Successive calls visit the slots in turn: the k-th call returns
      slot `(currentThread + k) mod numThreads`. */
  lemma RoundRobinAt(w: World, n: nat, k: nat)
    requires w.Valid() && k < n
    ensures GetWorkThreads(w, n).1[k] == (w.currentThread + k) % w.numThreads
  {
    GetWorkThreadsFollowCursor(w, n);
    CursorSlotsModulo(w.currentThread, w.numThreads, n, k);
  }

  /** All `n` slots at once. */
  lemma RoundRobin(w: World, n: nat)
    requires w.Valid()
    ensures forall k | 0 <= k < n :: GetWorkThreads(w, n).1[k] == (w.currentThread + k) % w.numThreads
  {
    forall k | 0 <= k < n
      ensures GetWorkThreads(w, n).1[k] == (w.currentThread + k) % w.numThreads
    {
      RoundRobinAt(w, n, k);
    }
  }

  /** One step of the cursor shifts the slot sequence by one. */
  lemma CursorAdvances(c: int, m: int, k: nat)
    requires 0 <= c < m && k >= 1
    ensures ((if c + 1 >= m then 0 else c + 1) + (k - 1)) % m == (c + k) % m
  {
    if c + 1 == m {
      ModAddModulus(k - 1, m);
    }
  }

  /** Euclidean division is unique: a quotient and an in-range remainder
      that rebuild `x` are `x / n` and `x % n`. */
  lemma ModUnique(x: int, n: int, q: int, s: int)
    requires n > 0 && 0 <= s < n && x == q * n + s
    ensures x % n == s && x / n == q
  {
    var q2, s2 := x / n, x % n;
    assert x == q2 * n + s2;
    if q2 > q {
      assert (q2 - q) * n >= n by { MulAtLeast(q2 - q, n); }
      assert false;
    } else if q2 < q {
      assert (q - q2) * n >= n by { MulAtLeast(q - q2, n); }
      assert false;
    }
  }

  lemma MulAtLeast(a: int, n: int)
    requires a >= 1 && n > 0
    ensures a * n >= n
  {
  }

  lemma ModAddModulus(x: nat, m: nat)
    requires m > 0
    ensures (m + x) % m == x % m
  {
    ModUnique(m + x, m, x / m + 1, x % m);
  }

  /** Threads are created only until every slot has one: after `n` calls
      the world holds `max(|threads|, min(currentThread + n, numThreads))`. */
  lemma {:induction false} ThreadsCreatedOnce(w: World, n: nat)
    requires w.Valid()
    ensures |GetWorkThreads(w, n).0.threads| == Max(|w.threads|, Min(w.currentThread + n, w.numThreads))
    decreases n
  {
    if n > 0 {
      var w1 := GetWorkThread(w).0;
      ThreadsCreatedOnce(w1, n - 1);
      assert GetWorkThreads(w, n).0 == GetWorkThreads(w1, n - 1).0;
      if w.currentThread + 1 == w.numThreads {
        assert |w1.threads| == w.numThreads;
      }
    }
  }

  function Max(a: int, b: int): int { if a < b then b else a }
  function Min(a: int, b: int): int { if a < b then a else b }

  /** On a fresh world the calls return 0, 1, 0, 1, ... and at most two
      threads are ever created. */
  lemma FreshWorldAlternates(features: seq<string>, plugins: map<string, Plugin>, n: nat)
    ensures forall k | 0 <= k < n :: GetWorkThreads(NewWorld(features, plugins), n).1[k] == k % 2
    ensures |GetWorkThreads(NewWorld(features, plugins), n).0.threads| == Min(n, 2)
  {
    RoundRobin(NewWorld(features, plugins), n);
    ThreadsCreatedOnce(NewWorld(features, plugins), n);
  }

  /** `LV2World::isFeatureSupported`: a feature is supported when the host
      lists it, and the Worker feature always is. */
  function IsFeatureSupported(w: World, uri: string): (r: bool)
    ensures r <==> uri in w.features || uri == WORKER_SCHEDULE
  {
    if uri in w.features then true
    else if uri == WORKER_SCHEDULE then true
    else false
  }

  /** `LV2World::isPluginSupported (const LilvPlugin*)`: false at the first
      required feature that is not supported, true otherwise. The loop over
      the plugin's ports has an empty body and decides nothing. */
  method IsPluginSupported(w: World, plugin: Plugin) returns (r: bool)
    ensures r <==> forall i | 0 <= i < |plugin.requiredFeatures| ::
                     IsFeatureSupported(w, plugin.requiredFeatures[i])
  {
    var nodes := plugin.requiredFeatures;
    var i := 0;
    while i < |nodes|
      invariant 0 <= i <= |nodes|
      invariant forall j | 0 <= j < i :: IsFeatureSupported(w, nodes[j])
    {
      if !IsFeatureSupported(w, nodes[i]) {
        return false;
      }
      i := i + 1;
    }
    return true;
  }

  /** `LV2World::getPlugin`: the plugin with that URI, if installed. */
  function GetPlugin(w: World, uri: string): (p: Option<Plugin>)
    ensures p.Some? <==> uri in w.plugins
    ensures p.Some? ==> p.value == w.plugins[uri]
  {
    if uri in w.plugins then Some(w.plugins[uri]) else None
  }

  /** `LV2World::isPluginAvailable`. */
  function IsPluginAvailable(w: World, uri: string): (r: bool)
    ensures r <==> uri in w.plugins
  {
    GetPlugin(w, uri) != None
  }

  /** `LV2World::isPluginSupported (const String&)`: false when no plugin
      has the URI, otherwise the answer for that plugin. */
  method IsPluginSupportedByUri(w: World, uri: string) returns (r: bool)
    ensures r <==> uri in w.plugins &&
                   forall i | 0 <= i < |w.plugins[uri].requiredFeatures| ::
                     IsFeatureSupported(w, w.plugins[uri].requiredFeatures[i])
  {
    var plugin := GetPlugin(w, uri);
    if plugin.Some? {
      r := IsPluginSupported(w, plugin.value);
    } else {
      r := false;
    }
  }
}
