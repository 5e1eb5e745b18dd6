/**
 * The registry of swap sources (js/modules/swap-registry.js): fonts and
 * PNG strips that replacement icons can be taken from, keyed
 * "bf:<file>" for Betaflight MCM fonts and "custom:<id>" for custom PNG
 * sets, plus the rule that resolves a custom asset path.
 */
module SwapRegistry {
  import opened Wrappers

  // ---------------------------------------------------------------------
  // resolveCustomAssetPath

  /** ASCII case folding, as the regular expression flag `i` applies it
      to the letters of "http". */
  function Lower(c: char): char
  {
    if 'A' <= c <= 'Z' then (c as int + 32) as char else c
  }

  /** s starts with the lower-case word w, ignoring ASCII case. */
  predicate StartsWithCI(s: string, w: string)
  {
    |w| <= |s| && forall i :: 0 <= i < |w| ==> Lower(s[i]) == w[i]
  }

  /** The test `/^(?:https?:)?\/\//i`: a protocol-relative or an http(s)
      URL. */
  predicate IsUrl(s: string)
  {
    StartsWithCI(s, "http://") || StartsWithCI(s, "https://") || (|s| >= 2 && s[..2] == "//")
  }

  /** Paths that are used as they are: URLs and paths starting with "/",
      "./" or "../". */
  predicate KeptAsIs(s: string)
  {
    IsUrl(s) || (|s| >= 1 && s[0] == '/') || (|s| >= 2 && s[..2] == "./") || (|s| >= 3 && s[..3] == "../")
  }

  /** `resolveCustomAssetPath`: None stands for a value that is not a
      string; the empty string is falsy and also gives "". Any other
      relative path is looked up under "fonts/". */
  function ResolveCustomAssetPath(pathLike: Option<string>): (r: string)
    ensures pathLike.None? || pathLike == Some("") ==> r == ""
    ensures pathLike.Some? && pathLike.value != "" && KeptAsIs(pathLike.value) ==> r == pathLike.value
    ensures pathLike.Some? && pathLike.value != "" && !KeptAsIs(pathLike.value) ==>
      r == "fonts/" + pathLike.value
  {
    match pathLike
    case None => ""
    case Some(p) =>
      if p == "" then ""
      else if KeptAsIs(p) then p
      else "fonts/" + p
  }

  lemma BareNameResolved()
    ensures !KeptAsIs("a.png")
  {
    assert Lower("a.png"[0]) != 'h';
  }

  lemma ResolvedNameResolved()
    ensures !KeptAsIs("fonts/a.png")
  {
    var s := "fonts/a.png";
    assert Lower(s[0]) != 'h';
    assert s[..2] == "fo" && s[..3] == "fon";
  }

  /** Resolution is not idempotent: a bare file name gains a second
      "fonts/" prefix when resolved again. */
  lemma ResolveNotIdempotent()
    ensures ResolveCustomAssetPath(Some(ResolveCustomAssetPath(Some("a.png")))) == "fonts/fonts/a.png"
  {
    BareNameResolved();
    assert ResolveCustomAssetPath(Some("a.png")) == "fonts/a.png";
    ResolvedNameResolved();
  }

  /** A resolved path is always kept as it is on a second resolution when
      it was kept the first time. */
  lemma ResolveKeptStable(p: string)
    requires p != "" && KeptAsIs(p)
    ensures ResolveCustomAssetPath(Some(ResolveCustomAssetPath(Some(p)))) == p
  {
  }

  // ---------------------------------------------------------------------
  // Registry entries

  /** A custom target's configuration: its PNG path and the fields the
      registry copies through unchanged. */
  datatype TargetCfg = TargetCfg(png: Option<string>, rest: map<string, string>)

  /** A normalised target: `{...cfg, png: resolved}`. */
  datatype NormTarget = NormTarget(png: string, rest: map<string, string>)

  datatype SwapSource =
    | BfSource(id: string, file: string, name: string)
    | CustomSource(id: string, name: string, targets: map<string, NormTarget>,
                   glyphWidth: int, glyphHeight: int, gap: int)

  /** An entry of the Betaflight font list. */
  datatype BfEntry = BfEntry(file: string, name: string)

  /** An entry of the custom manifest. A missing or falsy field is None;
      `targets` is None when it is missing or not an object, and a target
      whose configuration is falsy maps to None. */
  datatype CustomEntry = CustomEntry(
    id: Option<string>, name: Option<string>,
    targets: Option<map<string, Option<TargetCfg>>>,
    glyphWidth: Option<int>, glyphHeight: Option<int>, gap: Option<int>)

  function BfKey(file: string): string { "bf:" + file }

  function CustomKey(id: string): string { "custom:" + id }

  function BfSourceOf(e: BfEntry): SwapSource
  {
    BfSource(BfKey(e.file), e.file, e.name)
  }

  /** Registering a list of Betaflight entries, one `registry.set` after
      another. */
  function RegisterBf(reg: map<string, SwapSource>, list: seq<BfEntry>): map<string, SwapSource>
    decreases |list|
  {
    if list == [] then reg
    else RegisterBf(reg[BfKey(list[0].file) := BfSourceOf(list[0])], list[1..])
  }

  /** Some entry of the list registers under key. */
  predicate Mentions(list: seq<BfEntry>, key: string)
  {
    exists i :: 0 <= i < |list| && BfKey(list[i].file) == key
  }

  lemma MentionsTail(list: seq<BfEntry>, key: string)
    requires list != []
    ensures Mentions(list, key) <==> BfKey(list[0].file) == key || Mentions(list[1..], key)
  {
    if Mentions(list, key) && BfKey(list[0].file) != key {
      var i :| 0 <= i < |list| && BfKey(list[i].file) == key;
      assert list[1..][i - 1] == list[i];
    }
    if Mentions(list[1..], key) {
      var i :| 0 <= i < |list[1..]| && BfKey(list[1..][i].file) == key;
      assert list[1..][i] == list[i + 1];
    }
  }

  /** Keys that no entry registers keep their old value. */
  lemma {:induction false} RegisterBfOther(reg: map<string, SwapSource>, list: seq<BfEntry>, key: string)
    requires !Mentions(list, key)
    ensures key in RegisterBf(reg, list) <==> key in reg
    ensures key in reg ==> RegisterBf(reg, list)[key] == reg[key]
    decreases |list|
  {
    if list != [] {
      MentionsTail(list, key);
      RegisterBfOther(reg[BfKey(list[0].file) := BfSourceOf(list[0])], list[1..], key);
    }
  }

  /** The last entry with a given file wins. */
  lemma {:induction false} RegisterBfLast(reg: map<string, SwapSource>, list: seq<BfEntry>, key: string)
    requires Mentions(list, key)
    ensures key in RegisterBf(reg, list)
    ensures RegisterBf(reg, list)[key] == BfSourceOf(list[LastWith(list, key)])
    decreases |list|
  {
    MentionsTail(list, key);
    var reg' := reg[BfKey(list[0].file) := BfSourceOf(list[0])];
    if Mentions(list[1..], key) {
      RegisterBfLast(reg', list[1..], key);
      LastWithTail(list, key);
    } else {
      RegisterBfOther(reg', list[1..], key);
      LastWithHead(list, key);
    }
  }

  /** Index of the last entry whose key is `key` (0 when there is none). */
  function LastWith(list: seq<BfEntry>, key: string): (i: nat)
    ensures list != [] ==> i < |list|
    ensures Mentions(list, key) ==>
      BfKey(list[i].file) == key && forall j :: i < j < |list| ==> BfKey(list[j].file) != key
    decreases |list|
  {
    if list == [] then 0
    else if BfKey(list[|list| - 1].file) == key then |list| - 1
    else
      var i := LastWith(list[..|list| - 1], key);
      assert forall j :: 0 <= j < |list| - 1 ==> list[..|list| - 1][j] == list[j];
      i
  }

  lemma LastWithTail(list: seq<BfEntry>, key: string)
    requires list != [] && Mentions(list[1..], key)
    ensures LastWith(list, key) == LastWith(list[1..], key) + 1
  {
    var t := list[1..];
    MentionsTail(list, key);
    var a, b := LastWith(list, key), LastWith(t, key);
    assert t[b] == list[b + 1];
    assert a >= 1 ==> t[a - 1] == list[a];
  }

  lemma LastWithHead(list: seq<BfEntry>, key: string)
    requires |list| > 0 && BfKey(list[0].file) == key && !Mentions(list[1..], key)
    ensures LastWith(list, key) == 0
  {
    MentionsTail(list, key);
  }

  /** `registerBetaflightSwapSources`. */
  class Registry {
    var entries: map<string, SwapSource>

    constructor ()
      ensures entries == map[]
    {
      entries := map[];
    }

    method RegisterBetaflightSwapSources(list: seq<BfEntry>)
      modifies this
      ensures entries == RegisterBf(old(entries), list)
    {
      for i := 0 to |list|
        invariant RegisterBf(old(entries), list) == RegisterBf(entries, list[i..])
      {
        var e := list[i];
        var id := BfKey(e.file);
        assert list[i..][1..] == list[i + 1..];
        entries := entries[id := BfSource(id, e.file, e.name)];
      }
      assert list[|list|..] == [];
    }

    /** `registerCustomSwapSources`. */
    method RegisterCustomSwapSources(list: seq<CustomEntry>)
      modifies this
      ensures entries == RegisterCustom(old(entries), list)
    {
      for i := 0 to |list|
        invariant RegisterCustom(old(entries), list) == RegisterCustom(entries, list[i..])
      {
        var entry := list[i];
        assert list[i..][1..] == list[i + 1..];
        if !Accepted(entry) {
          continue;
        }
        var normalized := NormalizeTargets(entry.targets.value);
        var id := CustomKey(entry.id.value);
        entries := entries[id := CustomSource(id, entry.name.value, normalized,
          Default(entry.glyphWidth, 12), Default(entry.glyphHeight, 18), Default(entry.gap, 0))];
      }
      assert list[|list|..] == [];
    }
  }

  // ---------------------------------------------------------------------
  // registerCustomSwapSources

  predicate Truthy(s: Option<string>) { s.Some? && s.value != "" }

  /** The entry has an id, a name and an object of targets. */
  predicate Accepted(e: CustomEntry)
  {
    Truthy(e.id) && Truthy(e.name) && e.targets.Some?
  }

  /** `x ?? d`. */
  function Default(x: Option<int>, d: int): int
  {
    if x.Some? then x.value else d
  }

  /** The normalised targets: falsy configurations dropped, every png
      path resolved. */
  function NormalizedTargets(targets: map<string, Option<TargetCfg>>): (r: map<string, NormTarget>)
    ensures forall k :: k in r <==> k in targets && targets[k].Some?
    ensures forall k :: k in r ==>
      r[k] == NormTarget(ResolveCustomAssetPath(targets[k].value.png), targets[k].value.rest)
  {
    map k | k in targets && targets[k].Some? ::
      NormTarget(ResolveCustomAssetPath(targets[k].value.png), targets[k].value.rest)
  }

  /** The loop that builds `normalizedTargets`. */
  method NormalizeTargets(targets: map<string, Option<TargetCfg>>) returns (r: map<string, NormTarget>)
    ensures r == NormalizedTargets(targets)
  {
    r := map[];
    var todo := targets.Keys;
    while todo != {}
      invariant todo <= targets.Keys
      invariant forall k :: k in r <==> k in targets && k !in todo && targets[k].Some?
      invariant forall k :: k in r ==>
        r[k] == NormTarget(ResolveCustomAssetPath(targets[k].value.png), targets[k].value.rest)
      decreases |todo|
    {
      var k :| k in todo;
      todo := todo - {k};
      var cfg := targets[k];
      if cfg.None? {
        continue;
      }
      r := r[k := NormTarget(ResolveCustomAssetPath(cfg.value.png), cfg.value.rest)];
    }
  }

  function CustomSourceOf(e: CustomEntry): SwapSource
    requires Accepted(e)
  {
    CustomSource(CustomKey(e.id.value), e.name.value, NormalizedTargets(e.targets.value),
      Default(e.glyphWidth, 12), Default(e.glyphHeight, 18), Default(e.gap, 0))
  }

  function RegisterCustom(reg: map<string, SwapSource>, list: seq<CustomEntry>): map<string, SwapSource>
    decreases |list|
  {
    if list == [] then reg
    else if !Accepted(list[0]) then RegisterCustom(reg, list[1..])
    else RegisterCustom(reg[CustomKey(list[0].id.value) := CustomSourceOf(list[0])], list[1..])
  }

  /** Every key custom registration adds is "custom:" plus the id of an
      accepted entry, holding a custom_png source; nothing else changes. */
  lemma {:induction false} RegisterCustomKeys(reg: map<string, SwapSource>, list: seq<CustomEntry>, key: string)
    ensures key in RegisterCustom(reg, list) ==> (key in reg ||
      exists i :: 0 <= i < |list| && Accepted(list[i]) && key == CustomKey(list[i].id.value))
    ensures key in RegisterCustom(reg, list) && (key !in reg || reg[key].CustomSource?) ==>
      RegisterCustom(reg, list)[key].CustomSource?
    ensures (forall i :: 0 <= i < |list| && Accepted(list[i]) ==> key != CustomKey(list[i].id.value)) ==>
      (key in RegisterCustom(reg, list) <==> key in reg) &&
      (key in reg ==> RegisterCustom(reg, list)[key] == reg[key])
    decreases |list|
  {
    if list != [] {
      var tail := list[1..];
      var reg' := if Accepted(list[0]) then reg[CustomKey(list[0].id.value) := CustomSourceOf(list[0])] else reg;
      assert RegisterCustom(reg, list) == RegisterCustom(reg', tail);
      RegisterCustomKeys(reg', tail, key);
      if key in RegisterCustom(reg', tail) && key !in reg {
        if key in reg' {
          assert Accepted(list[0]) && key == CustomKey(list[0].id.value);
        } else {
          var i :| 0 <= i < |tail| && Accepted(tail[i]) && key == CustomKey(tail[i].id.value);
          assert tail[i] == list[i + 1];
        }
      }
      if forall i :: 0 <= i < |list| && Accepted(list[i]) ==> key != CustomKey(list[i].id.value) {
        forall i | 0 <= i < |tail| && Accepted(tail[i]) ensures key != CustomKey(tail[i].id.value) {
          assert tail[i] == list[i + 1];
        }
      }
    }
  }

  /** Some accepted entry of the list registers under key. */
  predicate MentionsCustom(list: seq<CustomEntry>, key: string)
  {
    exists i :: 0 <= i < |list| && Accepted(list[i]) && CustomKey(list[i].id.value) == key
  }

  lemma MentionsCustomTail(list: seq<CustomEntry>, key: string)
    requires list != []
    ensures MentionsCustom(list, key) <==>
      (Accepted(list[0]) && CustomKey(list[0].id.value) == key) || MentionsCustom(list[1..], key)
  {
    if MentionsCustom(list, key) && !(Accepted(list[0]) && CustomKey(list[0].id.value) == key) {
      var i :| 0 <= i < |list| && Accepted(list[i]) && CustomKey(list[i].id.value) == key;
      assert list[1..][i - 1] == list[i];
    }
    if MentionsCustom(list[1..], key) {
      var i :| 0 <= i < |list[1..]| && Accepted(list[1..][i]) && CustomKey(list[1..][i].id.value) == key;
      assert list[1..][i] == list[i + 1];
    }
  }

  /** Index of the last accepted entry registering under key (0 when there
      is none). */
  function LastCustomWith(list: seq<CustomEntry>, key: string): (i: nat)
    ensures list != [] ==> i < |list|
    ensures MentionsCustom(list, key) ==>
      Accepted(list[i]) && CustomKey(list[i].id.value) == key &&
      forall j :: i < j < |list| ==> !(Accepted(list[j]) && CustomKey(list[j].id.value) == key)
    decreases |list|
  {
    if list == [] then 0
    else
      var last := list[|list| - 1];
      if Accepted(last) && CustomKey(last.id.value) == key then |list| - 1
      else
        var i := LastCustomWith(list[..|list| - 1], key);
        assert forall j :: 0 <= j < |list| - 1 ==> list[..|list| - 1][j] == list[j];
        i
  }

  lemma LastCustomWithTail(list: seq<CustomEntry>, key: string)
    requires list != [] && MentionsCustom(list[1..], key)
    ensures LastCustomWith(list, key) == LastCustomWith(list[1..], key) + 1
  {
    var t := list[1..];
    MentionsCustomTail(list, key);
    var a, b := LastCustomWith(list, key), LastCustomWith(t, key);
    assert t[b] == list[b + 1];
    assert a >= 1 ==> t[a - 1] == list[a];
  }

  lemma LastCustomWithHead(list: seq<CustomEntry>, key: string)
    requires list != [] && Accepted(list[0]) && CustomKey(list[0].id.value) == key
    requires !MentionsCustom(list[1..], key)
    ensures LastCustomWith(list, key) == 0
  {
    MentionsCustomTail(list, key);
  }

  /** An accepted entry is registered under "custom:" plus its id, and the
      last accepted entry with that id wins, with its normalised targets
      and size defaults. */
  lemma {:induction false} RegisterCustomLast(reg: map<string, SwapSource>, list: seq<CustomEntry>, key: string)
    requires MentionsCustom(list, key)
    ensures key in RegisterCustom(reg, list)
    ensures RegisterCustom(reg, list)[key] == CustomSourceOf(list[LastCustomWith(list, key)])
    decreases |list|
  {
    MentionsCustomTail(list, key);
    var tail := list[1..];
    var reg' := if Accepted(list[0]) then reg[CustomKey(list[0].id.value) := CustomSourceOf(list[0])] else reg;
    assert RegisterCustom(reg, list) == RegisterCustom(reg', tail);
    if MentionsCustom(tail, key) {
      RegisterCustomLast(reg', tail, key);
      LastCustomWithTail(list, key);
    } else {
      forall i | 0 <= i < |tail| && Accepted(tail[i]) ensures key != CustomKey(tail[i].id.value) {
      }
      RegisterCustomKeys(reg', tail, key);
      LastCustomWithHead(list, key);
    }
  }

  /** A registered custom source with no size fields gets 12x18 cells and
      no gap. */
  lemma CustomDefaults(e: CustomEntry)
    requires Accepted(e) && e.glyphWidth.None? && e.glyphHeight.None? && e.gap.None?
    ensures var s := CustomSourceOf(e);
      s.glyphWidth == 12 && s.glyphHeight == 18 && s.gap == 0 && s.id == "custom:" + e.id.value
  {
  }
}
