/**
 * The dependency check both manager generations run before loading
 * (`checkDependencies` in src/pluginmanagerprivate.cpp and src/pluginmanager.cpp).
 * Each plugin caches the outcome in its `dependenciesExists` TriBool; the
 * check walks the dependency list in order, fails on the first dependency
 * that is missing or has an incompatible version, and recurses into the
 * dependencies of every dependency it accepts.
 */
module Dependencies {
  import opened TriBools
  import opened ReturnCodes
  import opened PluginInfos
  import opened Plugins

  /** The registry as the check sees it: plugin name to entry. */
  type Registry = map<string, Plugin>

  /** The metadata of every registered plugin; the check never changes it. */
  function Infos(m: Registry): (infos: map<string, PluginInfoStd>)
    ensures infos.Keys == m.Keys
    ensures forall k :: k in m ==> infos[k] == m[k].info
  {
    map k | k in m :: m[k].info
  }

  /**
   * A dependency the check accepts without recursing: it is registered and
   * `Version(registered version).compatible(required version)` holds.
   * Version parsing is a parameter of the model (`compatible`).
   */
  predicate Usable(infos: map<string, PluginInfoStd>, compatible: (string, string) -> bool, d: Dependency)
  {
    d.name in infos && compatible(infos[d.name].version, d.version)
  }

  /**
   * A ranking that decreases along every compatible dependency. The
   * source's recursion does not end when a check follows compatible
   * dependencies around a cycle; the ranking rules that out, and with it
   * the registries where a cycle sits behind a dependency that fails first,
   * on which the source does return.
   */
  ghost predicate Ranked(infos: map<string, PluginInfoStd>, compatible: (string, string) -> bool, rank: map<string, nat>)
  {
    forall k :: k in infos ==>
      k in rank &&
      forall d :: d in infos[k].dependencies && Usable(infos, compatible, d) ==>
        d.name in rank && rank[d.name] < rank[k]
  }

  /**
   * The meaning of a successful check: every dependency of `key` is
   * registered in a compatible version, and so on transitively.
   */
  ghost predicate Satisfied(infos: map<string, PluginInfoStd>, compatible: (string, string) -> bool,
                            rank: map<string, nat>, key: string)
    requires key in infos && Ranked(infos, compatible, rank)
    decreases rank[key]
  {
    forall d :: d in infos[key].dependencies ==>
      Usable(infos, compatible, d) && Satisfied(infos, compatible, rank, d.name)
  }

  /**
   * What `checkDependencies` reports for `key` given the cache: a determinate
   * entry is taken as it is, an unset one is decided from the dependencies.
   */
  ghost predicate Cached(m: Registry, compatible: (string, string) -> bool, rank: map<string, nat>, key: string)
    requires key in m && Ranked(Infos(m), compatible, rank)
    decreases rank[key]
  {
    var flag := m[key].dependenciesExists;
    if flag.EqualsBool(true) then true
    else if flag.EqualsBool(false) then false
    else forall d :: d in m[key].info.dependencies ==>
           Usable(Infos(m), compatible, d) && Cached(m, compatible, rank, d.name)
  }

  /** A True cache entry is only ever written once every dependency is usable and itself True. */
  ghost predicate TrueClosed(m: Registry, compatible: (string, string) -> bool)
  {
    forall k :: k in m && m[k].dependenciesExists.EqualsBool(true) ==>
      forall d :: d in m[k].info.dependencies ==>
        Usable(Infos(m), compatible, d) && m[d.name].dependenciesExists.EqualsBool(true)
  }

  /**
   * Every False cache entry still has a missing or incompatible dependency.
   * A later search can register the missing plugin, after which the entry
   * stays False: this holds for a registry whose cache is fresh, not for
   * every registry.
   */
  ghost predicate FalseJustified(m: Registry, compatible: (string, string) -> bool)
  {
    forall k :: k in m && m[k].dependenciesExists.EqualsBool(false) ==>
      exists d :: d in m[k].info.dependencies && !Usable(Infos(m), compatible, d)
  }

  /** `m2` differs from `m1` only in cache entries that were Indeterminate. */
  ghost predicate FlagsOnly(m1: Registry, m2: Registry)
  {
    m2.Keys == m1.Keys &&
    forall k :: k in m1 ==>
      m2[k] == m1[k].(dependenciesExists := m2[k].dependenciesExists) &&
      (!m1[k].dependenciesExists.IsIndeterminate() ==> m2[k].dependenciesExists == m1[k].dependenciesExists)
  }

  /** Only entries ranked no higher than `key` were written. */
  ghost predicate ChangedAtMost(m1: Registry, m2: Registry, rank: map<string, nat>, key: string)
    requires m1.Keys == m2.Keys && key in rank
  {
    forall k :: k in m1 && m2[k] != m1[k] ==> k in rank && rank[k] <= rank[key]
  }

  /** Every entry of `m2` reports what it reported in `m1`: the writes agree with the cache. */
  ghost predicate Coherent(m1: Registry, m2: Registry, compatible: (string, string) -> bool, rank: map<string, nat>)
  {
    m2.Keys == m1.Keys && Infos(m2) == Infos(m1) && Ranked(Infos(m1), compatible, rank) &&
    forall x :: x in m1 ==> Cached(m2, compatible, rank, x) == Cached(m1, compatible, rank, x)
  }

  /** Every dependency before position `i` is usable and checks out. */
  ghost predicate OkBefore(m: Registry, compatible: (string, string) -> bool,
                           rank: map<string, nat>, key: string, i: int)
    requires key in m && Ranked(Infos(m), compatible, rank)
  {
    forall j :: 0 <= j < i && j < |m[key].info.dependencies| ==>
      var d := m[key].info.dependencies[j];
      Usable(Infos(m), compatible, d) && Cached(m, compatible, rank, d.name)
  }

  /**
   * How a check of an unchecked plugin fails at dependency `i`: a missing
   * dependency reports LOAD_DEPENDENCY_NOT_FOUND and an incompatible one
   * LOAD_DEPENDENCY_BAD_VERSION, both caching False; a usable dependency
   * whose own check fails passes its code on and leaves the cache unset.
   */
  ghost predicate FailsAt(m: Registry, m': Registry, compatible: (string, string) -> bool,
                          rank: map<string, nat>, key: string, i: int, code: ReturnCode)
    requires key in m && key in m' && Ranked(Infos(m), compatible, rank)
    requires 0 <= i < |m[key].info.dependencies|
  {
    var d := m[key].info.dependencies[i];
    (d.name !in m ==>
       code.kind == LoadDependencyNotFound && m'[key].dependenciesExists.EqualsBool(false)) &&
    (d.name in m && !compatible(m[d.name].info.version, d.version) ==>
       code.kind == LoadDependencyBadVersion && m'[key].dependenciesExists.EqualsBool(false)) &&
    (Usable(Infos(m), compatible, d) ==>
       !Cached(m, compatible, rank, d.name) && m'[key].dependenciesExists.IsIndeterminate())
  }

  /** Identical metadata gives identical `Infos`. */
  lemma FlagsOnlyInfos(m1: Registry, m2: Registry)
    requires FlagsOnly(m1, m2)
    ensures Infos(m2) == Infos(m1)
  {
    assert forall k :: k in m1 ==> Infos(m2)[k] == Infos(m1)[k];
  }

  /** A True entry in a closed cache means the dependencies are satisfied. */
  lemma {:induction false} TrueSound(m: Registry, compatible: (string, string) -> bool,
                                     rank: map<string, nat>, key: string)
    requires key in m && Ranked(Infos(m), compatible, rank) && TrueClosed(m, compatible)
    requires m[key].dependenciesExists.EqualsBool(true)
    ensures Satisfied(Infos(m), compatible, rank, key)
    decreases rank[key]
  {
    forall d | d in m[key].info.dependencies
      ensures Usable(Infos(m), compatible, d) && Satisfied(Infos(m), compatible, rank, d.name)
    {
      TrueSound(m, compatible, rank, d.name);
    }
  }

  /**
   * When the cache is closed and justified (for instance, when every entry
   * is still unset), what the check reports is exactly `Satisfied`.
   */
  lemma {:induction false} CachedMeansSatisfied(m: Registry, compatible: (string, string) -> bool,
                                                rank: map<string, nat>, key: string)
    requires key in m && Ranked(Infos(m), compatible, rank)
    requires TrueClosed(m, compatible) && FalseJustified(m, compatible)
    ensures Cached(m, compatible, rank, key) <==> Satisfied(Infos(m), compatible, rank, key)
    decreases rank[key]
  {
    var flag := m[key].dependenciesExists;
    if flag.EqualsBool(true) {
      TrueSound(m, compatible, rank, key);
    } else if flag.IsIndeterminate() {
      forall d | d in m[key].info.dependencies && Usable(Infos(m), compatible, d)
        ensures Cached(m, compatible, rank, d.name) <==> Satisfied(Infos(m), compatible, rank, d.name)
      {
        CachedMeansSatisfied(m, compatible, rank, d.name);
      }
    }
  }

  /** An unset cache makes both cache predicates hold. */
  lemma FreshCache(m: Registry, compatible: (string, string) -> bool)
    requires forall k :: k in m ==> m[k].dependenciesExists.IsIndeterminate()
    ensures TrueClosed(m, compatible) && FalseJustified(m, compatible)
  {
  }

  /** Writing into an unset entry the value the check reports for it changes no report. */
  lemma {:induction false} WriteKeepsReports(m: Registry, compatible: (string, string) -> bool,
                                             rank: map<string, nat>, key: string, x: string)
    requires key in m && x in m && Ranked(Infos(m), compatible, rank)
    requires m[key].dependenciesExists.IsIndeterminate()
    ensures var m' := m[key := m[key].(dependenciesExists := TriBools.FromBool(Cached(m, compatible, rank, key)))];
            Infos(m') == Infos(m) &&
            Cached(m', compatible, rank, x) == Cached(m, compatible, rank, x)
    decreases rank[x]
  {
    var m' := m[key := m[key].(dependenciesExists := TriBools.FromBool(Cached(m, compatible, rank, key)))];
    assert FlagsOnly(m, m');
    FlagsOnlyInfos(m, m');
    if x != key && m[x].dependenciesExists.IsIndeterminate() {
      forall d | d in m[x].info.dependencies && Usable(Infos(m), compatible, d)
        ensures Cached(m', compatible, rank, d.name) == Cached(m, compatible, rank, d.name)
      {
        WriteKeepsReports(m, compatible, rank, key, d.name);
      }
    }
  }

  /** The same write, for every entry at once. */
  lemma WriteCoherent(m: Registry, compatible: (string, string) -> bool, rank: map<string, nat>, key: string)
    requires key in m && Ranked(Infos(m), compatible, rank)
    requires m[key].dependenciesExists.IsIndeterminate()
    ensures var m' := m[key := m[key].(dependenciesExists := TriBools.FromBool(Cached(m, compatible, rank, key)))];
            FlagsOnly(m, m') && Coherent(m, m', compatible, rank)
  {
    var m' := m[key := m[key].(dependenciesExists := TriBools.FromBool(Cached(m, compatible, rank, key)))];
    FlagsOnlyInfos(m, m');
    forall x | x in m
      ensures Cached(m', compatible, rank, x) == Cached(m, compatible, rank, x)
    {
      WriteKeepsReports(m, compatible, rank, key, x);
    }
  }

  /** Writing False after an unusable dependency keeps both cache predicates. */
  lemma WriteFalseKeepsCache(m: Registry, compatible: (string, string) -> bool, key: string, d: Dependency)
    requires key in m && m[key].dependenciesExists.IsIndeterminate()
    requires d in m[key].info.dependencies && !Usable(Infos(m), compatible, d)
    ensures var m' := m[key := m[key].(dependenciesExists := TriBools.FromBool(false))];
            (TrueClosed(m, compatible) ==> TrueClosed(m', compatible)) &&
            (FalseJustified(m, compatible) ==> FalseJustified(m', compatible))
  {
    var m' := m[key := m[key].(dependenciesExists := TriBools.FromBool(false))];
    assert FlagsOnly(m, m');
    FlagsOnlyInfos(m, m');
    if TrueClosed(m, compatible) {
      forall k | k in m' && m'[k].dependenciesExists.EqualsBool(true)
        ensures forall e :: e in m'[k].info.dependencies ==>
                  Usable(Infos(m'), compatible, e) && m'[e.name].dependenciesExists.EqualsBool(true)
      {
        assert k != key && m'[k] == m[k];
      }
    }
    if FalseJustified(m, compatible) {
      forall k | k in m' && m'[k].dependenciesExists.EqualsBool(false)
        ensures exists e :: e in m'[k].info.dependencies && !Usable(Infos(m'), compatible, e)
      {
        if k != key {
          assert m'[k] == m[k];
        }
      }
    }
  }

  /** Writing True once every dependency is usable and True keeps both cache predicates. */
  lemma WriteTrueKeepsCache(m: Registry, compatible: (string, string) -> bool, key: string)
    requires key in m && m[key].dependenciesExists.IsIndeterminate()
    requires forall d :: d in m[key].info.dependencies ==>
               Usable(Infos(m), compatible, d) && m[d.name].dependenciesExists.EqualsBool(true)
    ensures var m' := m[key := m[key].(dependenciesExists := TriBools.FromBool(true))];
            (TrueClosed(m, compatible) ==> TrueClosed(m', compatible)) &&
            (FalseJustified(m, compatible) ==> FalseJustified(m', compatible))
  {
    var m' := m[key := m[key].(dependenciesExists := TriBools.FromBool(true))];
    assert FlagsOnly(m, m');
    FlagsOnlyInfos(m, m');
    if TrueClosed(m, compatible) {
      forall k | k in m' && m'[k].dependenciesExists.EqualsBool(true)
        ensures forall e :: e in m'[k].info.dependencies ==>
                  Usable(Infos(m'), compatible, e) && m'[e.name].dependenciesExists.EqualsBool(true)
      {
        if k != key {
          assert m'[k] == m[k];
        }
      }
    }
    if FalseJustified(m, compatible) {
      forall k | k in m' && m'[k].dependenciesExists.EqualsBool(false)
        ensures exists e :: e in m'[k].info.dependencies && !Usable(Infos(m'), compatible, e)
      {
        assert k != key && m'[k] == m[k];
      }
    }
  }

  /** One more usable dependency that checks out extends the checked prefix. */
  lemma OkBeforeStep(m: Registry, compatible: (string, string) -> bool,
                     rank: map<string, nat>, key: string, i: int)
    requires key in m && Ranked(Infos(m), compatible, rank)
    requires 0 <= i < |m[key].info.dependencies| && OkBefore(m, compatible, rank, key, i)
    requires Usable(Infos(m), compatible, m[key].info.dependencies[i])
    requires Cached(m, compatible, rank, m[key].info.dependencies[i].name)
    ensures OkBefore(m, compatible, rank, key, i + 1)
  {
  }

  /** For an unset entry, a checked prefix covering the whole list is exactly what the check reports. */
  lemma OkBeforeAll(m: Registry, compatible: (string, string) -> bool, rank: map<string, nat>, key: string)
    requires key in m && Ranked(Infos(m), compatible, rank) && m[key].dependenciesExists.IsIndeterminate()
    ensures OkBefore(m, compatible, rank, key, |m[key].info.dependencies|) <==> Cached(m, compatible, rank, key)
  {
    if OkBefore(m, compatible, rank, key, |m[key].info.dependencies|) {
      forall d | d in m[key].info.dependencies
        ensures Usable(Infos(m), compatible, d) && Cached(m, compatible, rank, d.name)
      {
        var j :| 0 <= j < |m[key].info.dependencies| && m[key].info.dependencies[j] == d;
      }
    }
  }

  /** The dependencies already found True stay True, and the next one joins them. */
  lemma TruePrefixStep(cur: Registry, next: Registry, deps: seq<Dependency>, i: int)
    requires 0 <= i < |deps| && FlagsOnly(cur, next)
    requires forall j :: 0 <= j < i ==> deps[j].name in cur && cur[deps[j].name].dependenciesExists.EqualsBool(true)
    requires deps[i].name in next && next[deps[i].name].dependenciesExists.EqualsBool(true)
    ensures forall j :: 0 <= j <= i ==> deps[j].name in next && next[deps[j].name].dependenciesExists.EqualsBool(true)
  {
  }

  /** A recursive check of a lower-ranked dependency leaves the entry of `key` alone and changes no report. */
  lemma Compose(m: Registry, cur: Registry, next: Registry, compatible: (string, string) -> bool,
                rank: map<string, nat>, key: string, dep: string)
    requires key in m && key in rank && dep in rank && rank[dep] < rank[key]
    requires FlagsOnly(m, cur) && ChangedAtMost(m, cur, rank, key) && cur[key] == m[key]
    requires FlagsOnly(cur, next) && ChangedAtMost(cur, next, rank, dep)
    requires Coherent(m, cur, compatible, rank) && Coherent(cur, next, compatible, rank)
    ensures FlagsOnly(m, next) && ChangedAtMost(m, next, rank, key) && next[key] == m[key]
    ensures Coherent(m, next, compatible, rank)
  {
  }

  /** Two rounds of writes compose. */
  lemma Chain(m: Registry, cur: Registry, next: Registry, compatible: (string, string) -> bool,
              rank: map<string, nat>, key: string, dep: string)
    requires key in rank && dep in rank && rank[dep] <= rank[key]
    requires FlagsOnly(m, cur) && ChangedAtMost(m, cur, rank, key) && Coherent(m, cur, compatible, rank)
    requires FlagsOnly(cur, next) && ChangedAtMost(cur, next, rank, dep) && Coherent(cur, next, compatible, rank)
    ensures FlagsOnly(m, next) && ChangedAtMost(m, next, rank, key) && Coherent(m, next, compatible, rank)
  {
  }

  /**
   * What a check of an unchecked plugin achieves: only unset entries ranked
   * no higher than `key` are written, every write agrees with the cache and
   * keeps it closed and justified, success is what the cache reports and is
   * cached as True, and a failure is explained by the first dependency that
   * does not check out.
   */
  ghost predicate Outcome(m: Registry, m': Registry, compatible: (string, string) -> bool,
                          rank: map<string, nat>, key: string, code: ReturnCode)
    requires key in m && Ranked(Infos(m), compatible, rank)
  {
    FlagsOnly(m, m') && ChangedAtMost(m, m', rank, key) && Coherent(m, m', compatible, rank) &&
    (TrueClosed(m, compatible) ==> TrueClosed(m', compatible)) &&
    (FalseJustified(m, compatible) ==> FalseJustified(m', compatible)) &&
    (code.IsSuccess() <==> Cached(m, compatible, rank, key)) &&
    (code.IsSuccess() <==> m'[key].dependenciesExists.EqualsBool(true)) &&
    (code.kind == Success || code.kind == LoadDependencyNotFound || code.kind == LoadDependencyBadVersion) &&
    (!code.IsSuccess() ==>
       exists i :: 0 <= i < |m[key].info.dependencies| &&
         OkBefore(m, compatible, rank, key, i) && FailsAt(m, m', compatible, rank, key, i, code))
  }

  /** The entries the loop has written so far, before `key` itself is written. */
  ghost predicate LoopState(m: Registry, cur: Registry, compatible: (string, string) -> bool,
                            rank: map<string, nat>, key: string)
    requires key in m && Ranked(Infos(m), compatible, rank)
  {
    FlagsOnly(m, cur) && ChangedAtMost(m, cur, rank, key) && cur[key] == m[key] &&
    Coherent(m, cur, compatible, rank) &&
    (TrueClosed(m, compatible) ==> TrueClosed(cur, compatible)) &&
    (FalseJustified(m, compatible) ==> FalseJustified(cur, compatible))
  }

  /** A failure explained at position `i` is an `Outcome`. */
  lemma FailureOutcome(m: Registry, m': Registry, compatible: (string, string) -> bool,
                       rank: map<string, nat>, key: string, i: int, code: ReturnCode)
    requires key in m && Ranked(Infos(m), compatible, rank)
    requires FlagsOnly(m, m') && ChangedAtMost(m, m', rank, key) && Coherent(m, m', compatible, rank)
    requires TrueClosed(m, compatible) ==> TrueClosed(m', compatible)
    requires FalseJustified(m, compatible) ==> FalseJustified(m', compatible)
    requires code.kind == LoadDependencyNotFound || code.kind == LoadDependencyBadVersion
    requires !Cached(m, compatible, rank, key) && !m'[key].dependenciesExists.EqualsBool(true)
    requires 0 <= i < |m[key].info.dependencies| && OkBefore(m, compatible, rank, key, i)
    requires FailsAt(m, m', compatible, rank, key, i, code)
    ensures Outcome(m, m', compatible, rank, key, code)
  {
  }

  /** Writing False into an unset entry with an unusable dependency agrees with the cache and keeps it closed and justified. */
  lemma WriteFalseStep(cur: Registry, compatible: (string, string) -> bool,
                       rank: map<string, nat>, key: string, d: Dependency)
    requires key in cur && Ranked(Infos(cur), compatible, rank) && cur[key].dependenciesExists.IsIndeterminate()
    requires d in cur[key].info.dependencies && !Usable(Infos(cur), compatible, d)
    ensures var m' := cur[key := cur[key].(dependenciesExists := TriBools.FromBool(false))];
            FlagsOnly(cur, m') && ChangedAtMost(cur, m', rank, key) && Coherent(cur, m', compatible, rank) &&
            (TrueClosed(cur, compatible) ==> TrueClosed(m', compatible)) &&
            (FalseJustified(cur, compatible) ==> FalseJustified(m', compatible))
  {
    assert !Cached(cur, compatible, rank, key);
    WriteCoherent(cur, compatible, rank, key);
    WriteFalseKeepsCache(cur, compatible, key, d);
  }

  /** The write of False at a missing or incompatible dependency, seen from the loop's start. */
  lemma WriteFalse(m: Registry, cur: Registry, compatible: (string, string) -> bool,
                   rank: map<string, nat>, key: string, d: Dependency)
    requires key in m && Ranked(Infos(m), compatible, rank) && m[key].dependenciesExists.IsIndeterminate()
    requires LoopState(m, cur, compatible, rank, key)
    requires d in m[key].info.dependencies && !Usable(Infos(m), compatible, d)
    ensures var m' := cur[key := cur[key].(dependenciesExists := TriBools.FromBool(false))];
            FlagsOnly(m, m') && ChangedAtMost(m, m', rank, key) && Coherent(m, m', compatible, rank) &&
            (TrueClosed(m, compatible) ==> TrueClosed(m', compatible)) &&
            (FalseJustified(m, compatible) ==> FalseJustified(m', compatible))
  {
    WriteFalseStep(cur, compatible, rank, key, d);
    var m' := cur[key := cur[key].(dependenciesExists := TriBools.FromBool(false))];
    Chain(m, cur, m', compatible, rank, key, key);
  }

  /**
   * Writing False after a missing or incompatible dependency at position `i`
   * makes the check fail there, with the write agreeing with the cache.
   */
  lemma MarkFalse(m: Registry, cur: Registry, compatible: (string, string) -> bool,
                  rank: map<string, nat>, key: string, i: int, code: ReturnCode)
    requires key in m && Ranked(Infos(m), compatible, rank) && m[key].dependenciesExists.IsIndeterminate()
    requires LoopState(m, cur, compatible, rank, key) && OkBefore(m, compatible, rank, key, i)
    requires 0 <= i < |m[key].info.dependencies| && !Usable(Infos(m), compatible, m[key].info.dependencies[i])
    requires code.kind == (if m[key].info.dependencies[i].name in m then LoadDependencyBadVersion else LoadDependencyNotFound)
    ensures Outcome(m, cur[key := cur[key].(dependenciesExists := TriBools.FromBool(false))], compatible, rank, key, code)
  {
    var d := m[key].info.dependencies[i];
    assert d in m[key].info.dependencies;
    WriteFalse(m, cur, compatible, rank, key, d);
    var m' := cur[key := cur[key].(dependenciesExists := TriBools.FromBool(false))];
    FailureOutcome(m, m', compatible, rank, key, i, code);
  }

  /** A usable dependency whose own check failed makes the check fail there, leaving `key` unset. */
  lemma PassOn(m: Registry, next: Registry, compatible: (string, string) -> bool,
               rank: map<string, nat>, key: string, i: int, code: ReturnCode)
    requires key in m && Ranked(Infos(m), compatible, rank) && m[key].dependenciesExists.IsIndeterminate()
    requires LoopState(m, next, compatible, rank, key) && OkBefore(m, compatible, rank, key, i)
    requires 0 <= i < |m[key].info.dependencies| && Usable(Infos(m), compatible, m[key].info.dependencies[i])
    requires !Cached(m, compatible, rank, m[key].info.dependencies[i].name)
    requires code.kind == LoadDependencyNotFound || code.kind == LoadDependencyBadVersion
    ensures Outcome(m, next, compatible, rank, key, code)
  {
    assert m[key].info.dependencies[i] in m[key].info.dependencies;
    assert FailsAt(m, next, compatible, rank, key, i, code);
  }

  /** Writing True once every dependency checked out agrees with the cache. */
  lemma MarkTrue(m: Registry, cur: Registry, compatible: (string, string) -> bool,
                 rank: map<string, nat>, key: string)
    requires key in m && Ranked(Infos(m), compatible, rank) && m[key].dependenciesExists.IsIndeterminate()
    requires LoopState(m, cur, compatible, rank, key)
    requires OkBefore(m, compatible, rank, key, |m[key].info.dependencies|)
    requires forall j :: 0 <= j < |m[key].info.dependencies| ==>
               m[key].info.dependencies[j].name in cur &&
               cur[m[key].info.dependencies[j].name].dependenciesExists.EqualsBool(true)
    ensures Outcome(m, cur[key := cur[key].(dependenciesExists := TriBools.FromBool(true))],
                    compatible, rank, key, ReturnCode(Success))
  {
    OkBeforeAll(m, compatible, rank, key);
    WriteCoherent(cur, compatible, rank, key);
    forall d | d in cur[key].info.dependencies
      ensures Usable(Infos(cur), compatible, d) && cur[d.name].dependenciesExists.EqualsBool(true)
    {
      var j :| 0 <= j < |m[key].info.dependencies| && m[key].info.dependencies[j] == d;
    }
    WriteTrueKeepsCache(cur, compatible, key);
    var m' := cur[key := cur[key].(dependenciesExists := TriBools.FromBool(true))];
    assert ChangedAtMost(cur, m', rank, key);
    Chain(m, cur, m', compatible, rank, key, key);
  }

  /**
   * `checkDependencies(plugin)` for the plugin registered under `key`. The
   * registry is returned with its updated cache entries, standing for the
   * entries the source updates through shared pointers.
   */
  method CheckDependencies(m: Registry, key: string, compatible: (string, string) -> bool, ghost rank: map<string, nat>)
    returns (code: ReturnCode, m': Registry)
    requires key in m && Ranked(Infos(m), compatible, rank)
    ensures FlagsOnly(m, m') && ChangedAtMost(m, m', rank, key) && Coherent(m, m', compatible, rank)
    ensures TrueClosed(m, compatible) ==> TrueClosed(m', compatible)
    ensures FalseJustified(m, compatible) ==> FalseJustified(m', compatible)
    ensures code.IsSuccess() <==> Cached(m, compatible, rank, key)
    ensures code.IsSuccess() <==> m'[key].dependenciesExists.EqualsBool(true)
    ensures code.kind == Success || code.kind == LoadDependencyNotFound || code.kind == LoadDependencyBadVersion
    ensures m[key].dependenciesExists.EqualsBool(false) ==>
              code.kind == (if m[key].info.name in m then LoadDependencyBadVersion else LoadDependencyNotFound)
    ensures m[key].dependenciesExists.IsIndeterminate() && !code.IsSuccess() ==>
              exists i :: 0 <= i < |m[key].info.dependencies| &&
                OkBefore(m, compatible, rank, key, i) && FailsAt(m, m', compatible, rank, key, i, code)
    decreases rank[key], 1
  {
    if !m[key].dependenciesExists.IsIndeterminate() {
      m' := m;
      if m[key].dependenciesExists.EqualsBool(true) {
        code := ReturnCode(Success);
      } else if m[key].info.name !in m {
        code := ReturnCode(LoadDependencyNotFound);
      } else {
        code := ReturnCode(LoadDependencyBadVersion);
      }
      return;
    }
    code, m' := CheckEachDependency(m, key, compatible, rank);
  }

  /**
   * The loop of `checkDependencies` over the list of an unchecked plugin:
   * the cache entry is written False on a missing or incompatible
   * dependency, True once every dependency passed, and left unset when a
   * dependency's own check fails.
   */
  method CheckEachDependency(m: Registry, key: string, compatible: (string, string) -> bool, ghost rank: map<string, nat>)
    returns (code: ReturnCode, m': Registry)
    requires key in m && Ranked(Infos(m), compatible, rank)
    requires m[key].dependenciesExists.IsIndeterminate()
    ensures Outcome(m, m', compatible, rank, key, code)
    decreases rank[key], 0
  {
    var deps := m[key].info.dependencies;
    var cur := m;
    var i := 0;
    assert LoopState(m, m, compatible, rank, key);
    while i < |deps|
      invariant 0 <= i <= |deps|
      invariant LoopState(m, cur, compatible, rank, key)
      invariant OkBefore(m, compatible, rank, key, i)
      invariant forall j :: 0 <= j < i ==> deps[j].name in cur && cur[deps[j].name].dependenciesExists.EqualsBool(true)
    {
      var d := deps[i];
      if d.name !in cur {
        code := ReturnCode(LoadDependencyNotFound);
        MarkFalse(m, cur, compatible, rank, key, i, code);
        m' := cur[key := cur[key].(dependenciesExists := TriBools.FromBool(false))];
        return;
      }
      if !compatible(cur[d.name].info.version, d.version) {
        code := ReturnCode(LoadDependencyBadVersion);
        MarkFalse(m, cur, compatible, rank, key, i, code);
        m' := cur[key := cur[key].(dependenciesExists := TriBools.FromBool(false))];
        return;
      }
      assert d in Infos(m)[key].dependencies;
      var retCode, next := CheckDependencies(cur, d.name, compatible, rank);
      Compose(m, cur, next, compatible, rank, key, d.name);
      if !retCode.IsSuccess() {
        code, m' := retCode, next;
        PassOn(m, next, compatible, rank, key, i, code);
        return;
      }
      OkBeforeStep(m, compatible, rank, key, i);
      TruePrefixStep(cur, next, deps, i);
      cur := next;
      i := i + 1;
    }
    MarkTrue(m, cur, compatible, rank, key);
    m' := cur[key := cur[key].(dependenciesExists := TriBools.FromBool(true))];
    code := ReturnCode(Success);
  }
}
