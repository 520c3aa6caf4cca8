/** The delta-bundler serializers: the wire message of an incremental
    (delta) update, the id of the server-side delta client, and the
    startup/lazy classification and group-dependency callback that RAM
    bundle information is built from.

    The delta itself, the client state it is applied to and the RAM
    options are produced by collaborators that are not part of this model;
    they are parameters here. */
module Serializers {
  import opened Wrappers
  import opened Seqs
  import Hex

  type Id = int

  /** A transformed module as the delta transformer reports it. */
  datatype DeltaModule = DeltaModule(id: Id, code: string, path: string, name: string, moduleType: string)

  /** One entry of a delta map: a module, or `None` when the module was
      removed. */
  type DeltaEntry = (Id, Option<DeltaModule>)

  /** The delta transformer's response. Each segment is a `Map` from id to
      module, given here in its iteration order. */
  datatype DeltaTransformResponse = DeltaTransformResponse(
    id: string,
    pre: seq<DeltaEntry>,
    post: seq<DeltaEntry>,
    delta: seq<DeltaEntry>,
    reset: bool)

  /** A `[id, code]` pair of the wire message; `None` is the `null` that
      `JSON.stringify` writes for `undefined`. */
  type WireEntry = (Id, Option<string>)

  datatype DeltaMessage = DeltaMessage(
    id: string,
    pre: seq<WireEntry>,
    post: seq<WireEntry>,
    delta: seq<WireEntry>,
    reset: bool)

  datatype DeltaBundle = DeltaBundle(bundle: DeltaMessage, numModifiedFiles: nat)

  // ---------------------------------------------------------------------
  // deltaBundle

  /** A wire entry carries the same id as its delta entry, is `null`
      exactly when the module was removed, and otherwise carries its code. */
  predicate WireAgrees(w: WireEntry, e: DeltaEntry)
  {
    && w.0 == e.0
    && (w.1.None? <==> e.1.None?)
    && (e.1.Some? ==> w.1 == Some(e.1.value.code))
  }

  /** `stringifyModule` as applied to one entry: `[id, code]`, with the
      code of a removed module left `undefined`. */
  function StringifyModule(e: DeltaEntry): (w: WireEntry)
    ensures WireAgrees(w, e)
  {
    (e.0, if e.1.Some? then Some(e.1.value.code) else None)
  }

  function StringifySegment(s: seq<DeltaEntry>): (r: seq<WireEntry>)
    ensures |r| == |s|
    ensures forall i :: 0 <= i < |s| ==> r[i] == StringifyModule(s[i])
  {
    seq(|s|, i requires 0 <= i < |s| => StringifyModule(s[i]))
  }

  /** The wire message for one delta: every segment keeps its order and
      length, each entry keeps its id, a removed module is sent as `null`
      and a present one as its code (so an empty code stays `""`), `id` and
      `reset` are copied, and the modified-file count is the number of
      entries sent. */
  function SerializeDelta(delta: DeltaTransformResponse): (out: DeltaBundle)
    ensures out.bundle.id == delta.id && out.bundle.reset == delta.reset
    ensures |out.bundle.pre| == |delta.pre| && |out.bundle.post| == |delta.post|
    ensures |out.bundle.delta| == |delta.delta|
    ensures forall i :: 0 <= i < |delta.pre| ==> WireAgrees(out.bundle.pre[i], delta.pre[i])
    ensures forall i :: 0 <= i < |delta.post| ==> WireAgrees(out.bundle.post[i], delta.post[i])
    ensures forall i :: 0 <= i < |delta.delta| ==> WireAgrees(out.bundle.delta[i], delta.delta[i])
    ensures out.numModifiedFiles == |out.bundle.pre| + |out.bundle.post| + |out.bundle.delta|
  {
    DeltaBundle(
      DeltaMessage(
        delta.id,
        StringifySegment(delta.pre),
        StringifySegment(delta.post),
        StringifySegment(delta.delta),
        delta.reset),
      |delta.pre| + |delta.post| + |delta.delta|)
  }

  // ---------------------------------------------------------------------
  // the meaning of a segment, on both ends of the wire

  /** The code map a segment leaves behind when the server applies it:
      a removed module is deleted, a present one is set to its code; later
      entries win. */
  function ApplySegment(state: map<Id, string>, s: seq<DeltaEntry>): map<Id, string>
  {
    if |s| == 0 then state
    else
      var last := s[|s| - 1];
      var before := ApplySegment(state, s[..|s| - 1]);
      match last.1
      case None => before - {last.0}
      case Some(m) => before[last.0 := m.code]
  }

  /** How a client applies the wire pairs of one segment: a `null` code
      deletes the id, any string (the empty one included) sets it. */
  function ApplyWire(state: map<Id, string>, ws: seq<WireEntry>): map<Id, string>
  {
    if |ws| == 0 then state
    else
      var last := ws[|ws| - 1];
      var before := ApplyWire(state, ws[..|ws| - 1]);
      match last.1
      case None => before - {last.0}
      case Some(code) => before[last.0 := code]
  }

  /** Decoding a segment from the wire reproduces the server's view of it:
      removals delete and are never confused with modules whose code is
      empty. */
  lemma {:induction false} WireRoundTrip(state: map<Id, string>, s: seq<DeltaEntry>)
    ensures ApplyWire(state, StringifySegment(s)) == ApplySegment(state, s)
    decreases |s|
  {
    if |s| > 0 {
      var init := s[..|s| - 1];
      assert StringifySegment(s)[..|s| - 1] == StringifySegment(init);
      WireRoundTrip(state, init);
    }
  }

  /** The last entry for an id decides it: a removal leaves the id absent
      and a present module, even with empty code, leaves its code. */
  lemma {:induction false} LastEntryDecides(state: map<Id, string>, s: seq<DeltaEntry>, k: nat)
    requires k < |s|
    requires forall j :: k < j < |s| ==> s[j].0 != s[k].0
    ensures s[k].1.None? ==> s[k].0 !in ApplySegment(state, s)
    ensures s[k].1.Some? ==>
      (s[k].0 in ApplySegment(state, s) && ApplySegment(state, s)[s[k].0] == s[k].1.value.code)
    decreases |s|
  {
    if k < |s| - 1 {
      var init := s[..|s| - 1];
      assert init[k] == s[k];
      LastEntryDecides(state, init, k);
    }
  }

  // ---------------------------------------------------------------------
  // _getAllModules: the server client id

  const ServerPrefix: string := "__SERVER__"

  /** `'__SERVER__' + stableHash(options).toString('hex')`. */
  function ServerClientId<Options>(options: Options, stableHash: Options -> seq<Hex.byte>): (id: string)
    ensures |id| == |ServerPrefix| + 2 * |stableHash(options)|
    ensures id[..|ServerPrefix|] == ServerPrefix
    ensures Hex.Decode(id[|ServerPrefix|..]) == Some(stableHash(options))
  {
    Hex.DecodeEncode(stableHash(options));
    var id := ServerPrefix + Hex.Encode(stableHash(options));
    assert id[|ServerPrefix|..] == Hex.Encode(stableHash(options));
    id
  }

  /** Two option records share a server client id exactly when their
      stable hashes agree; every such id starts with the prefix and carries
      two digits per hash byte. */
  lemma ServerClientIdsAgree<Options>(a: Options, b: Options, stableHash: Options -> seq<Hex.byte>)
    ensures ServerClientId(a, stableHash) == ServerClientId(b, stableHash) <==> stableHash(a) == stableHash(b)
    ensures ServerClientId(a, stableHash)[..|ServerPrefix|] == ServerPrefix
    ensures |ServerClientId(a, stableHash)| == |ServerPrefix| + 2 * |stableHash(a)|
  {
    var ea, eb := Hex.Encode(stableHash(a)), Hex.Encode(stableHash(b));
    if ServerPrefix + ea == ServerPrefix + eb {
      assert ea == (ServerPrefix + ea)[|ServerPrefix|..];
      assert eb == (ServerPrefix + eb)[|ServerPrefix|..];
    }
    Hex.EncodeInjective(stableHash(a), stableHash(b));
  }

  // ---------------------------------------------------------------------
  // getRamBundleInfo: startup and lazy modules

  /** A module handed to the RAM bundle builder (its source map is not
      modelled). */
  datatype RamModule = RamModule(id: Id, code: string, name: string, sourcePath: string, moduleType: string)

  function IsStartup(preloadedModules: set<string>): RamModule -> bool
  {
    (m: RamModule) =>
      m.sourcePath in preloadedModules || m.moduleType == "script" || m.moduleType == "require"
  }

  function IsLazy(preloadedModules: set<string>): RamModule -> bool
  {
    (m: RamModule) =>
      m.sourcePath !in preloadedModules && (m.moduleType == "asset" || m.moduleType == "module")
  }

  /** The `forEach` of `getRamBundleInfo`: a preloaded path sends a module
      to startup whatever its type; otherwise `script` and `require` go to
      startup, `asset` and `module` go to lazy, and any other type is
      dropped. Both lists keep the input order. */
  method ClassifyRamModules(ramModules: seq<RamModule>, preloadedModules: set<string>)
    returns (startupModules: seq<RamModule>, lazyModules: seq<RamModule>)
    ensures startupModules == Filter(ramModules, IsStartup(preloadedModules))
    ensures lazyModules == Filter(ramModules, IsLazy(preloadedModules))
    ensures forall m :: m in ramModules && m.sourcePath in preloadedModules ==> m in startupModules
    ensures forall m :: m in startupModules ==> m !in lazyModules
    ensures forall m :: m in ramModules ==>
      (m in startupModules || m in lazyModules <==>
         m.sourcePath in preloadedModules || m.moduleType in {"script", "require", "asset", "module"})
  {
    startupModules, lazyModules := [], [];
    for i := 0 to |ramModules|
      invariant startupModules == Filter(ramModules[..i], IsStartup(preloadedModules))
      invariant lazyModules == Filter(ramModules[..i], IsLazy(preloadedModules))
    {
      FilterSnoc(ramModules, i, IsStartup(preloadedModules));
      FilterSnoc(ramModules, i, IsLazy(preloadedModules));
      var m := ramModules[i];
      if m.sourcePath in preloadedModules {
        startupModules := startupModules + [m];
      } else if m.moduleType == "script" || m.moduleType == "require" {
        startupModules := startupModules + [m];
      } else if m.moduleType == "asset" || m.moduleType == "module" {
        lazyModules := lazyModules + [m];
      }
    }
    assert ramModules[..|ramModules|] == ramModules;
    FilterMembers(ramModules, IsStartup(preloadedModules));
    FilterMembers(ramModules, IsLazy(preloadedModules));
  }

  // ---------------------------------------------------------------------
  // getRamBundleInfo: the group dependency callback

  /** The ids of those dependencies of `ramModule` that the lookup knows;
      unknown paths are skipped and repeated ids collapse. */
  method GroupDependencies(
    ramModule: RamModule,
    dependenciesByPath: map<string, RamModule>,
    getDependencies: string -> seq<string>)
    returns (output: set<Id>)
    ensures forall id :: id in output <==>
      exists d :: d in getDependencies(ramModule.sourcePath) && d in dependenciesByPath &&
        dependenciesByPath[d].id == id
    ensures |output| <= |getDependencies(ramModule.sourcePath)|
  {
    var deps := getDependencies(ramModule.sourcePath);
    output := {};
    for i := 0 to |deps|
      invariant forall id :: id in output <==>
        exists d :: d in deps[..i] && d in dependenciesByPath && dependenciesByPath[d].id == id
      invariant |output| <= i
    {
      var dependency := deps[i];
      assert deps[..i + 1] == deps[..i] + [dependency];
      if dependency in dependenciesByPath {
        output := output + {dependenciesByPath[dependency].id};
      }
    }
    assert deps[..|deps|] == deps;
  }
}
