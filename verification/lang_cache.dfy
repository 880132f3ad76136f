/** `getLangConfig`: the configured language files, each loaded through a
    module-wide cache whose entries a timer deletes again after a time to
    live. The file system and `JSON.parse` are one loader function, the
    clock is explicit, and the cache key is a parameter so that the key
    the code builds and a key that cannot collide can both be stated. */
module LangCache {
  import opened Base
  import opened JsonValues

  /** One entry of `languageFiles`. */
  datatype LanguageFile = LanguageFile(name: string, path: string)

  /** One element of the result: the language name and its parsed file,
      `null` when the file could not be read or parsed. */
  datatype LanguageEntry = LanguageEntry(name: string, translation: Json)

  /** Reading and parsing the file at a path; `None` when either throws. */
  type Loader = string -> Option<Json>

  /** A pending `setTimeout` that deletes the entry under `key` at `due`. */
  datatype Timer<K> = Timer(due: int, key: K)

  /** The cache with the clock and the pending deletions. */
  datatype Cache<K(==)> = Cache(now: int, entries: map<K, LanguageEntry>, timers: seq<Timer<K>>)

  /** The options `getLangConfig` reads besides the files. */
  datatype Options = Options(disableCache: bool, ttl: Option<int>)

  /** The cache after a call, the entries returned, and the paths read (`readFileSync` calls). */
  datatype Loaded<K(==)> = Loaded(cache: Cache<K>, langs: seq<LanguageEntry>, loadedPaths: seq<string>)

  const DefaultTtl := 500

  /** The largest delay a Node.js timer accepts. */
  const MaxTimerDelay := 2147483647

  /** The delay `setTimeout` applies for the configured time to live:
      500 by default, and 1 for a value below 1 or above the largest
      accepted delay. */
  function Delay(ttl: Option<int>): (d: int)
    ensures 1 <= d <= MaxTimerDelay
    ensures ttl.None? ==> d == DefaultTtl
    ensures ttl.Some? && 1 <= ttl.value <= MaxTimerDelay ==> d == ttl.value
    ensures ttl.Some? && !(1 <= ttl.value <= MaxTimerDelay) ==> d == 1
  {
    var t := if ttl.None? then DefaultTtl else ttl.value;
    if t < 1 || t > MaxTimerDelay then 1 else t
  }

  /** What loading a file produces when it is read afresh. */
  function Fresh(f: LanguageFile, load: Loader): (e: LanguageEntry)
    ensures e.name == f.name
    ensures load(f.path).None? <==> e.translation == JNull && load(f.path) != Some(JNull)
  {
    LanguageEntry(f.name, if load(f.path).Some? then load(f.path).value else JNull)
  }

  /** The handling of one language file under cache key `key`. */
  function LoadOne<K(==)>(c: Cache<K>, f: LanguageFile, key: K, opts: Options, load: Loader): (r: Loaded<K>)
    ensures |r.langs| == 1 && r.cache.now == c.now
    ensures !opts.disableCache && key in c.entries ==> r == Loaded(c, [c.entries[key]], [])
    ensures !(!opts.disableCache && key in c.entries) ==>
              r.langs == [Fresh(f, load)] && r.loadedPaths == [f.path]
              && r.cache.timers == c.timers + [Timer(c.now + Delay(opts.ttl), key)]
    ensures !(!opts.disableCache && key in c.entries) ==>
              r.cache.entries == if opts.disableCache || load(f.path).None? then c.entries
                                 else c.entries[key := Fresh(f, load)]
  {
    if !opts.disableCache && key in c.entries then Loaded(c, [c.entries[key]], [])
    else
      var c1 := c.(timers := c.timers + [Timer(c.now + Delay(opts.ttl), key)]);
      match load(f.path)
      case None => Loaded(c1, [LanguageEntry(f.name, JNull)], [f.path])
      case Some(j) =>
        var e := LanguageEntry(f.name, j);
        Loaded(if opts.disableCache then c1 else c1.(entries := c1.entries[key := e]), [e], [f.path])
  }

  /** `languageFiles.map(...)` with the cache threaded through in order. */
  function LoadAll<K(==)>(c: Cache<K>, files: seq<LanguageFile>, opts: Options, load: Loader,
                          keyOf: (string, string) -> K): (r: Loaded<K>)
    ensures |r.langs| == |files| && r.cache.now == c.now
    decreases |files|
  {
    if |files| == 0 then Loaded(c, [], [])
    else
      var first := LoadOne(c, files[0], keyOf(files[0].name, files[0].path), opts, load);
      var rest := LoadAll(first.cache, files[1..], opts, load, keyOf);
      Loaded(rest.cache, first.langs + rest.langs, first.loadedPaths + rest.loadedPaths)
  }

  /** The cache key the code builds: name and path joined by a dash. */
  function DashKey(name: string, path: string): string {
    name + "-" + path
  }

  /** A cache key that keeps name and path apart. */
  datatype FileKey = FileKey(name: string, path: string)

  function PairKey(name: string, path: string): FileKey {
    FileKey(name, path)
  }

  /** `getLangConfig(config)` as written; a configuration without
      `languageFiles` throws. */
  function GetLangConfigAsWritten(c: Cache<string>, files: Option<seq<LanguageFile>>, opts: Options,
                                  load: Loader): (r: Js<Loaded<string>>)
    ensures r.Thrown? <==> files.None?
    ensures r.Ok? ==> |r.value.langs| == |files.value|
  {
    if files.None? then Thrown else Ok(LoadAll(c, files.value, opts, load, DashKey))
  }

  /** `getLangConfig(config)` with the cache keyed by the (name, path) pair. */
  function GetLangConfig(c: Cache<FileKey>, files: Option<seq<LanguageFile>>, opts: Options,
                         load: Loader): (r: Js<Loaded<FileKey>>)
    ensures r.Thrown? <==> files.None?
    ensures r.Ok? ==> |r.value.langs| == |files.value|
  {
    if files.None? then Thrown else Ok(LoadAll(c, files.value, opts, load, PairKey))
  }

  /** The timers due at time t. */
  function Pending<K>(timers: seq<Timer<K>>, t: int): (r: seq<Timer<K>>)
    ensures forall i :: 0 <= i < |r| ==> r[i].due > t && r[i] in timers
    ensures forall i :: 0 <= i < |timers| && timers[i].due > t ==> timers[i] in r
  {
    if |timers| == 0 then []
    else (if timers[0].due > t then [timers[0]] else []) + Pending(timers[1..], t)
  }

  /** Letting the clock run to t: every timer due by then deletes its
      entry. */
  function Advance<K(==,!new)>(c: Cache<K>, t: int): (r: Cache<K>)
    requires c.now <= t
    ensures r.now == t
    ensures forall k :: k in r.entries <==> k in c.entries && forall i :: 0 <= i < |c.timers| && c.timers[i].key == k ==> c.timers[i].due > t
    ensures forall k :: k in r.entries ==> r.entries[k] == c.entries[k]
    ensures forall i :: 0 <= i < |r.timers| ==> r.timers[i].due > t && r.timers[i] in c.timers
  {
    var expired := set i | 0 <= i < |c.timers| && c.timers[i].due <= t :: c.timers[i].key;
    Cache(t, c.entries - expired, Pending(c.timers, t))
  }

  /** Every stored entry carries the name its key was built from. */
  predicate NamesKept(c: Cache<FileKey>) {
    forall k :: k in c.entries ==> c.entries[k].name == k.name
  }

  /** Every stored entry is what loading its file afresh gives. */
  predicate Consistent(c: Cache<FileKey>, load: Loader) {
    forall k :: k in c.entries ==> load(k.path).Some? && c.entries[k] == Fresh(LanguageFile(k.name, k.path), load)
  }

  /** With the (name, path) key the result lists the configured names in
      the configured order, whether or not entries came from the cache. */
  lemma {:induction false} NamesInOrder(c: Cache<FileKey>, files: seq<LanguageFile>, opts: Options, load: Loader)
    requires NamesKept(c)
    ensures NamesKept(LoadAll(c, files, opts, load, PairKey).cache)
    ensures forall i :: 0 <= i < |files| ==> LoadAll(c, files, opts, load, PairKey).langs[i].name == files[i].name
    decreases |files|
  {
    if |files| > 0 {
      var first := LoadOne(c, files[0], PairKey(files[0].name, files[0].path), opts, load);
      NamesInOrder(first.cache, files[1..], opts, load);
      var r := LoadAll(c, files, opts, load, PairKey);
      assert forall i :: 1 <= i < |files| ==> r.langs[i] == LoadAll(first.cache, files[1..], opts, load, PairKey).langs[i - 1];
    }
  }

  /** As long as the files do not change, the cache is invisible: every
      entry returned is what loading the file afresh gives. */
  lemma {:induction false} CacheIsTransparent(c: Cache<FileKey>, files: seq<LanguageFile>, opts: Options, load: Loader)
    requires Consistent(c, load)
    ensures Consistent(LoadAll(c, files, opts, load, PairKey).cache, load)
    ensures forall i :: 0 <= i < |files| ==> LoadAll(c, files, opts, load, PairKey).langs[i] == Fresh(files[i], load)
    decreases |files|
  {
    if |files| > 0 {
      var first := LoadOne(c, files[0], PairKey(files[0].name, files[0].path), opts, load);
      CacheIsTransparent(first.cache, files[1..], opts, load);
      var r := LoadAll(c, files, opts, load, PairKey);
      assert forall i :: 1 <= i < |files| ==> r.langs[i] == LoadAll(first.cache, files[1..], opts, load, PairKey).langs[i - 1];
    }
  }

  /** Letting time pass only deletes entries, so both invariants survive. */
  lemma AdvanceKeepsInvariants(c: Cache<FileKey>, t: int, load: Loader)
    requires c.now <= t
    ensures NamesKept(c) ==> NamesKept(Advance(c, t))
    ensures Consistent(c, load) ==> Consistent(Advance(c, t), load)
  {
  }

  /** With `disableCache` nothing is stored, every file is read, and every
      entry is fresh. */
  lemma {:induction false} DisabledCacheNeverStores<K>(c: Cache<K>, files: seq<LanguageFile>, ttl: Option<int>,
                                                           load: Loader, keyOf: (string, string) -> K)
    ensures LoadAll(c, files, Options(true, ttl), load, keyOf).cache.entries == c.entries
    ensures LoadAll(c, files, Options(true, ttl), load, keyOf).loadedPaths == seq(|files|, i requires 0 <= i < |files| => files[i].path)
    ensures forall i :: 0 <= i < |files| ==> LoadAll(c, files, Options(true, ttl), load, keyOf).langs[i] == Fresh(files[i], load)
    decreases |files|
  {
    if |files| > 0 {
      var opts := Options(true, ttl);
      var first := LoadOne(c, files[0], keyOf(files[0].name, files[0].path), opts, load);
      DisabledCacheNeverStores(first.cache, files[1..], ttl, load, keyOf);
      var r := LoadAll(c, files, opts, load, keyOf);
      assert forall i :: 1 <= i < |files| ==> r.langs[i] == LoadAll(first.cache, files[1..], opts, load, keyOf).langs[i - 1];
    }
  }

  /** Only files that loaded successfully are ever stored. */
  lemma {:induction false} OnlyLoadedFilesStored<K>(c: Cache<K>, files: seq<LanguageFile>, opts: Options,
                                                        load: Loader, keyOf: (string, string) -> K)
    ensures forall k :: k in LoadAll(c, files, opts, load, keyOf).cache.entries ==>
              k in c.entries || exists i :: 0 <= i < |files| && k == keyOf(files[i].name, files[i].path)
                                                             && load(files[i].path).Some?
    decreases |files|
  {
    if |files| > 0 {
      var first := LoadOne(c, files[0], keyOf(files[0].name, files[0].path), opts, load);
      OnlyLoadedFilesStored(first.cache, files[1..], opts, load, keyOf);
      forall k | k in LoadAll(c, files, opts, load, keyOf).cache.entries
        ensures k in c.entries || exists i :: 0 <= i < |files| && k == keyOf(files[i].name, files[i].path)
                                                               && load(files[i].path).Some?
      {
        if k !in first.cache.entries {
          var i :| 0 <= i < |files[1..]| && k == keyOf(files[1..][i].name, files[1..][i].path)
                   && load(files[1..][i].path).Some?;
          assert files[1..][i] == files[i + 1];
        }
      }
    }
  }

  /** When every file is already stored and caching is on, nothing is read
      and the cache is left as it was. */
  lemma {:induction false} AllCachedNoRead<K>(c: Cache<K>, files: seq<LanguageFile>, ttl: Option<int>,
                                                  load: Loader, keyOf: (string, string) -> K)
    requires forall i :: 0 <= i < |files| ==> keyOf(files[i].name, files[i].path) in c.entries
    ensures LoadAll(c, files, Options(false, ttl), load, keyOf).loadedPaths == []
    ensures LoadAll(c, files, Options(false, ttl), load, keyOf).cache == c
    ensures forall i :: 0 <= i < |files| ==>
              LoadAll(c, files, Options(false, ttl), load, keyOf).langs[i] == c.entries[keyOf(files[i].name, files[i].path)]
    decreases |files|
  {
    if |files| > 0 {
      var opts := Options(false, ttl);
      AllCachedNoRead(c, files[1..], ttl, load, keyOf);
      var r := LoadAll(c, files, opts, load, keyOf);
      assert forall i :: 1 <= i < |files| ==> r.langs[i] == LoadAll(c, files[1..], opts, load, keyOf).langs[i - 1];
    }
  }

  /** The time-to-live cycle of the utility tests: a file loaded at t0 is
      served from the cache up to one tick before t0 + delay, and read
      again from t0 + delay on. */
  lemma TtlCycle(t0: int, f: LanguageFile, ttl: Option<int>, load: Loader)
    requires load(f.path).Some?
    ensures var opts := Options(false, ttl);
            var d := Delay(ttl);
            var l1 := LoadAll(Cache(t0, map[], []), [f], opts, load, PairKey);
            var l2 := LoadAll(Advance(l1.cache, t0 + d - 1), [f], opts, load, PairKey);
            var l3 := LoadAll(Advance(l2.cache, t0 + d), [f], opts, load, PairKey);
            l1.loadedPaths == [f.path] && l2.loadedPaths == [] && l3.loadedPaths == [f.path]
            && l1.langs == l2.langs == l3.langs == [Fresh(f, load)]
  {
    var opts := Options(false, ttl);
    var d := Delay(ttl);
    var key := PairKey(f.name, f.path);
    var c0: Cache<FileKey> := Cache(t0, map[], []);
    LoadSingle(c0, f, opts, load, PairKey);
    var l1 := LoadAll(c0, [f], opts, load, PairKey);
    assert l1.cache.timers == [Timer(t0 + d, key)] && key in l1.cache.entries;
    var c1 := Advance(l1.cache, t0 + d - 1);
    assert key in c1.entries;
    LoadSingle(c1, f, opts, load, PairKey);
    var l2 := LoadAll(c1, [f], opts, load, PairKey);
    assert l2.cache == c1;
    var c2 := Advance(l2.cache, t0 + d);
    assert l1.cache.timers[0].due <= t0 + d;
    assert key !in c2.entries;
    LoadSingle(c2, f, opts, load, PairKey);
  }

  /** The map over a single file is that file's handling. */
  lemma LoadSingle<K>(c: Cache<K>, f: LanguageFile, opts: Options, load: Loader, keyOf: (string, string) -> K)
    ensures LoadAll(c, [f], opts, load, keyOf) == LoadOne(c, f, keyOf(f.name, f.path), opts, load)
  {
    var first := LoadOne(c, f, keyOf(f.name, f.path), opts, load);
    assert [f][1..] == [];
    assert first.langs + [] == first.langs && first.loadedPaths + [] == first.loadedPaths;
  }

  /** The default time to live is 500 ticks and a configured one of 300 is
      used as given. */
  lemma TtlExamples()
    ensures Delay(None) == 500
    ensures Delay(Some(300)) == 300
    ensures Delay(Some(0)) == 1
  {
  }

  /** The disable-cache sequence of the utility tests: an uncached call
      reads and stores nothing, the next cached call reads and stores, the
      one after is served from the cache. */
  lemma DisableThenEnable(t: int, f: LanguageFile, load: Loader)
    requires load(f.path).Some?
    ensures var l1 := LoadAll(Cache(t, map[], []), [f], Options(true, None), load, PairKey);
            var l2 := LoadAll(l1.cache, [f], Options(false, None), load, PairKey);
            var l3 := LoadAll(l2.cache, [f], Options(false, None), load, PairKey);
            l1.loadedPaths == [f.path] && l1.cache.entries == map[]
            && l2.loadedPaths == [f.path] && l3.loadedPaths == []
  {
  }

  /** The dash-joined key conflates two different files: language "en-x"
      at path "y" and language "en" at path "x-y" share the key "en-x-y",
      so the second is answered from the first one's cache entry, under
      the wrong name and with the wrong file's contents. */
  lemma DashKeyCollision(t: int, load: Loader)
    requires load("y").Some? && load("x-y").Some?
    ensures var r := GetLangConfigAsWritten(Cache(t, map[], []),
                       Some([LanguageFile("en-x", "y"), LanguageFile("en", "x-y")]), Options(false, None), load);
            r.Ok? && r.value.langs[1] == LanguageEntry("en-x", load("y").value)
            && r.value.loadedPaths == ["y"]
  {
    var files := [LanguageFile("en-x", "y"), LanguageFile("en", "x-y")];
    var opts := Options(false, None);
    var key := DashKey("en-x", "y");
    assert DashKey("en", "x-y") == key;
    var c0: Cache<string> := Cache(t, map[], []);
    var first := LoadOne(c0, files[0], key, opts, load);
    assert key in first.cache.entries && first.cache.entries[key] == LanguageEntry("en-x", load("y").value);
    var second := LoadOne(first.cache, files[1], key, opts, load);
    assert second.langs == [LanguageEntry("en-x", load("y").value)] && second.loadedPaths == [];
    assert files[1..][1..] == [];
    assert LoadAll(second.cache, files[1..][1..], opts, load, DashKey) == Loaded(second.cache, [], []);
    assert LoadAll(first.cache, files[1..], opts, load, DashKey) == Loaded(second.cache, second.langs, []);
  }

  /** With the (name, path) key, the entries returned carry the configured
      names in the configured order whenever every cached entry sits under
      its own name; when, further, every cached entry is what its file
      holds now, each entry returned is exactly its own file's contents. */
  lemma GetLangConfigFaithful(c: Cache<FileKey>, files: seq<LanguageFile>, opts: Options, load: Loader)
    requires NamesKept(c)
    ensures GetLangConfig(c, Some(files), opts, load).Ok?
    ensures forall i :: 0 <= i < |files| ==> GetLangConfig(c, Some(files), opts, load).value.langs[i].name == files[i].name
    ensures Consistent(c, load) ==>
              forall i :: 0 <= i < |files| ==> GetLangConfig(c, Some(files), opts, load).value.langs[i] == Fresh(files[i], load)
  {
    NamesInOrder(c, files, opts, load);
    if Consistent(c, load) {
      CacheIsTransparent(c, files, opts, load);
    }
  }

  /** The two files that collide under the dash key are kept apart by the
      (name, path) key. */
  lemma PairKeySeparates(t: int, load: Loader)
    ensures var r := GetLangConfig(Cache(t, map[], []),
                       Some([LanguageFile("en-x", "y"), LanguageFile("en", "x-y")]), Options(false, None), load);
            r.Ok? && r.value.langs[0].name == "en-x" && r.value.langs[1].name == "en"
  {
    GetLangConfigFaithful(Cache(t, map[], []), [LanguageFile("en-x", "y"), LanguageFile("en", "x-y")], Options(false, None), load);
  }
}
