/**
 * flattenColorPalette of src/utils/flattenColorPalette.ts: a nested colour
 * tree flattened into one `name-shade -> value` map. A child key `DEFAULT`
 * contributes its parent's name alone; the reserved key `__CSS_VALUES__` is
 * skipped by the structural pass and then read as a table of ThemeOptions
 * flags, copying each entry without the DEFAULT bit back into the result.
 */
module Palette {
  import opened Wrappers

  const Reserved: string := "__CSS_VALUES__"
  const DefaultKey: string := "DEFAULT"
  /** ThemeOptions.DEFAULT = 1 << 2. */
  const DefaultFlag: int := 4

  /**
   * A palette value: a colour string, a nested palette whose entries are kept
   * in their `Object.entries` order, or the flag table stored under the
   * reserved key.
   */
  datatype Node =
    | Leaf(value: string)
    | Branch(entries: seq<(string, Node)>)
    | Flags(flags: seq<(string, int)>)

  /**
   * `(Number(flag) & ThemeOptions.DEFAULT) !== 0`. For an integer, bit 2 of its
   * 32-bit two's complement form is floor(flag / 4) mod 2, and Dafny's division
   * by a positive divisor is floor division.
   */
  predicate HasDefaultFlag(flag: int) {
    (flag / DefaultFlag) % 2 == 1
  }

  /** On an unsigned 32-bit word, bit 2 is set exactly when (u / 4) is odd. */
  lemma MaskLowBits(u: int)
    requires 0 <= u < 0x1_0000_0000
    ensures ((u as bv32) & 4 != 0) <==> (u / 4) % 2 == 1
  {
  }

  /**
   * HasDefaultFlag is the source's `& ThemeOptions.DEFAULT` test on the 32-bit
   * two's complement word of any flag in the 32-bit signed range.
   */
  lemma HasDefaultFlagIsMask(flag: int)
    requires -0x8000_0000 <= flag < 0x8000_0000
    ensures HasDefaultFlag(flag) <==> ((flag % 0x1_0000_0000) as bv32) & 4 != 0
  {
    MaskLowBits(flag % 0x1_0000_0000);
    WordBitTwo(flag);
  }

  /** Reducing modulo 2^32 keeps bit 2 of the floor quotient. */
  lemma WordBitTwo(flag: int)
    requires -0x8000_0000 <= flag < 0x8000_0000
    ensures (flag % 0x1_0000_0000 / 4) % 2 == (flag / DefaultFlag) % 2
  {
    if flag < 0 {
      var q, r := flag / 4, flag % 4;
      var u := flag + 0x1_0000_0000;
      assert flag % 0x1_0000_0000 == u;
      assert u == 4 * (q + 0x4000_0000) + r;
      assert u / 4 == q + 0x4000_0000;
      assert q + 0x4000_0000 == 2 * (q / 2 + 0x2000_0000) + q % 2;
    }
  }

  /** The key `${root}${parent === 'DEFAULT' ? '' : `-${parent}`}`. */
  function QualifiedKey(root: string, child: string): string {
    if child == DefaultKey then root else root + "-" + child
  }

  lemma QualifiedKeyInjective(root: string)
    ensures forall p, q :: QualifiedKey(root, p) == QualifiedKey(root, q) ==> p == q
  {
    forall p, q | QualifiedKey(root, p) == QualifiedKey(root, q) ensures p == q {
      if p != DefaultKey && q != DefaultKey {
        assert p == QualifiedKey(root, p)[|root| + 1..];
        assert q == QualifiedKey(root, q)[|root| + 1..];
      }
    }
  }

  /** A flattened child palette with every key qualified by the child's own key. */
  function Prefixed(root: string, m: map<string, string>): (r: map<string, string>)
    ensures forall p | p in m :: QualifiedKey(root, p) in r && r[QualifiedKey(root, p)] == m[p]
    ensures forall k | k in r :: exists p | p in m :: QualifiedKey(root, p) == k
  {
    QualifiedKeyInjective(root);
    map p | p in m :: QualifiedKey(root, p) := m[p]
  }

  /** `colors[key]`: the entry of that key, if any. */
  function Lookup(es: seq<(string, Node)>, key: string): (r: Option<Node>)
    ensures r.None? <==> forall i | 0 <= i < |es| :: es[i].0 != key
    ensures r.Some? ==> (key, r.value) in es
  {
    if es == [] then None
    else if es[0].0 == key then Some(es[0].1)
    else Lookup(es[1..], key)
  }

  /** `colors[key] as string`, when the entry exists and holds a string. */
  function LeafAt(es: seq<(string, Node)>, key: string): (r: Option<string>)
    ensures r.Some? <==> exists c | (key, c) in es :: c.Leaf? && c == Lookup(es, key).value
    ensures r.Some? ==> (key, Leaf(r.value)) in es
  {
    match Lookup(es, key)
    case Some(Leaf(v)) => Some(v)
    case _ => None
  }

  /** `colors.__CSS_VALUES__`, when `'__CSS_VALUES__' in colors` and it holds a flag table. */
  function ReservedFlags(es: seq<(string, Node)>): Option<seq<(string, int)>> {
    match Lookup(es, Reserved)
    case Some(Flags(fs)) => Some(fs)
    case _ => None
  }

  /**
   * The shapes the source's types and its flag table assume: object keys are
   * unique; only the reserved key holds a flag table, and it holds one; each
   * key the table names is a string entry of the same object.
   */
  predicate WellFormed(n: Node)
    decreases n
  {
    match n
    case Leaf(_) => true
    case Flags(_) => false
    case Branch(es) =>
      && (forall i, j | 0 <= i < j < |es| :: es[i].0 != es[j].0)
      && forall i | 0 <= i < |es| ::
           if es[i].0 == Reserved then
             && es[i].1.Flags?
             && forall j | 0 <= j < |es[i].1.flags| ::
                  Lookup(es, es[i].1.flags[j].0).Some? && Lookup(es, es[i].1.flags[j].0).value.Leaf?
           else WellFormed(es[i].1)
  }

  /** What one iteration of the structural loop writes for the entry (root, child). */
  function Writes(root: string, child: Node): map<string, string>
    decreases child, 2, 0
  {
    if root == Reserved then map[]
    else
      match child
      case Leaf(v) => map[root := v]
      case Branch(_) => Prefixed(root, Flat(child))
      case Flags(_) => map[]  // a flag table under an ordinary key: excluded by WellFormed
  }

  /** The result after the structural loop has run over the first i entries, later writes winning. */
  function Structural(n: Node, i: nat): map<string, string>
    requires n.Branch? && i <= |n.entries|
    decreases n, 0, i
  {
    if i == 0 then map[]
    else Structural(n, i - 1) + Writes(n.entries[i - 1].0, n.entries[i - 1].1)
  }

  /** The `__CSS_VALUES__` loop over its first |fs| flag entries, run on `acc`. */
  function PostPass(es: seq<(string, Node)>, acc: map<string, string>, fs: seq<(string, int)>): map<string, string>
    decreases |fs|
  {
    if fs == [] then acc
    else
      var prev := PostPass(es, acc, fs[..|fs| - 1]);
      var (key, flag) := fs[|fs| - 1];
      if HasDefaultFlag(flag) then prev
      else
        match LeafAt(es, key)
        case Some(v) => prev[key := v]
        case None => prev  // a missing or non-string entry: excluded by WellFormed
  }

  /** flattenColorPalette(colors), as a function of the palette. */
  function Flat(n: Node): map<string, string>
    requires n.Branch?
    decreases n, 1, 0
  {
    var s := Structural(n, |n.entries|);
    match ReservedFlags(n.entries)
    case Some(fs) => PostPass(n.entries, s, fs)
    case None => s
  }

  /** The restriction of m to the keys outside `out`. */
  function Without(m: map<string, string>, out: set<string>): map<string, string> {
    map p | p in m && p !in out :: m[p]
  }

  /**
   * flattenColorPalette: a record filled by a loop over the entries, recursing
   * into nested palettes, then patched from the `__CSS_VALUES__` table.
   */
  method FlattenColorPalette(colors: Node) returns (result: map<string, string>)
    requires colors.Branch? && WellFormed(colors)
    ensures result == Flat(colors)
    decreases colors
  {
    var es := colors.entries;
    result := map[];
    for i := 0 to |es|
      invariant result == Structural(colors, i)
    {
      var (root, children) := es[i];
      if root == Reserved {
        assert result + Writes(root, children) == result;
        continue;
      }
      match children {
        case Branch(_) =>
          var sub := FlattenColorPalette(children);
          result := WritePrefixed(result, root, sub);
        case Leaf(v) =>
          assert result + Writes(root, children) == result[root := v];
          result := result[root := v];
        case Flags(_) =>
          assert false;
      }
    }
    match ReservedFlags(es) {
      case Some(fs) => result := ApplyCssValues(es, result, fs);
      case None =>
    }
  }

  /** The inner loop: every key p of a flattened child is written as `root-p` (or `root` for DEFAULT). */
  method WritePrefixed(acc: map<string, string>, root: string, sub: map<string, string>)
    returns (result: map<string, string>)
    ensures result == acc + Prefixed(root, sub)
  {
    result := acc;
    var todo := sub.Keys;
    while todo != {}
      invariant todo <= sub.Keys
      invariant result == acc + Prefixed(root, Without(sub, todo))
      decreases todo
    {
      var p :| p in todo;
      PrefixedAdd(root, sub, todo, p);
      UnionUpdate(acc, Prefixed(root, Without(sub, todo)), QualifiedKey(root, p), sub[p]);
      result := result[QualifiedKey(root, p) := sub[p]];
      todo := todo - {p};
    }
    assert Without(sub, {}) == sub;
  }

  /** The `__CSS_VALUES__` loop: each flag entry without the DEFAULT bit copies `colors[key]`. */
  method ApplyCssValues(es: seq<(string, Node)>, acc: map<string, string>, fs: seq<(string, int)>)
    returns (result: map<string, string>)
    ensures result == PostPass(es, acc, fs)
  {
    result := acc;
    for j := 0 to |fs|
      invariant result == PostPass(es, acc, fs[..j])
    {
      assert fs[..j + 1][..j] == fs[..j];
      var (key, flag) := fs[j];
      if (flag / DefaultFlag) % 2 == 0 {
        match LeafAt(es, key) {
          case Some(v) => result := result[key := v];
          case None =>
        }
      }
    }
    assert fs[..|fs|] == fs;
  }

  /** One step of the inner loop: qualifying one more child key. */
  lemma PrefixedAdd(root: string, sub: map<string, string>, todo: set<string>, p: string)
    requires p in todo && todo <= sub.Keys
    ensures Prefixed(root, Without(sub, todo - {p}))
         == Prefixed(root, Without(sub, todo))[QualifiedKey(root, p) := sub[p]]
  {
    assert Without(sub, todo - {p}) == Without(sub, todo)[p := sub[p]];
    PrefixedInsert(root, Without(sub, todo), p, sub[p]);
  }

  lemma UnionUpdate(a: map<string, string>, b: map<string, string>, k: string, v: string)
    ensures a + b[k := v] == (a + b)[k := v]
  {
  }

  lemma PrefixedInsert(root: string, m: map<string, string>, p: string, v: string)
    ensures Prefixed(root, m[p := v]) == Prefixed(root, m)[QualifiedKey(root, p) := v]
  {
    var a, b := Prefixed(root, m[p := v]), Prefixed(root, m)[QualifiedKey(root, p) := v];
    forall k | k in a ensures k in b {
      var q :| q in m[p := v] && QualifiedKey(root, q) == k;
      if q != p {
        assert q in m;
      }
    }
    forall k | k in b ensures k in a && a[k] == b[k] {
      if k == QualifiedKey(root, p) {
        assert a[k] == v;
      } else {
        var q :| q in m && QualifiedKey(root, q) == k;
        assert q != p;
        assert q in m[p := v];
      }
    }
    assert a.Keys == b.Keys;
  }

  /** What entry j of the branch n writes in the structural loop. */
  function EntryWrites(n: Node, j: nat): map<string, string>
    requires n.Branch? && j < |n.entries|
  {
    Writes(n.entries[j].0, n.entries[j].1)
  }

  /** After the first i entries, a key is present exactly when one of them wrote it. */
  lemma {:induction false} StructuralKeys(n: Node, i: nat, k: string)
    requires n.Branch? && i <= |n.entries|
    ensures k in Structural(n, i) <==> exists j | 0 <= j < i :: k in EntryWrites(n, j)
  {
    if i > 0 {
      StructuralKeys(n, i - 1, k);
      if k in EntryWrites(n, i - 1) {
        assert k in Structural(n, i);
      }
    }
  }

  /** Later writes overwrite earlier ones: a key holds what its last writer wrote. */
  lemma {:induction false} LastWriteWins(n: Node, i: nat, j: nat, k: string)
    requires n.Branch? && j < i <= |n.entries|
    requires k in EntryWrites(n, j)
    requires forall l | j < l < i :: k !in EntryWrites(n, l)
    ensures k in Structural(n, i) && Structural(n, i)[k] == EntryWrites(n, j)[k]
  {
    if i - 1 > j {
      LastWriteWins(n, i - 1, j, k);
      assert k !in EntryWrites(n, i - 1);
    }
  }

  /** A string entry (k, v) with no later writer of k leaves `result[k] = v`. */
  lemma LeafEntryKept(n: Node, j: nat)
    requires n.Branch? && j < |n.entries|
    requires n.entries[j].0 != Reserved && n.entries[j].1.Leaf?
    requires forall l | j < l < |n.entries| :: n.entries[j].0 !in EntryWrites(n, l)
    ensures var (k, child) := n.entries[j];
      k in Structural(n, |n.entries|) && Structural(n, |n.entries|)[k] == child.value
  {
    LastWriteWins(n, |n.entries|, j, n.entries[j].0);
  }

  /**
   * Under an ordinary key the child's DEFAULT entry is written to the bare key,
   * every other child key p to `root-p`, and nothing else is written.
   */
  lemma BranchEntryWrites(root: string, child: Node, k: string)
    requires root != Reserved && child.Branch?
    ensures DefaultKey in Flat(child) ==> Writes(root, child)[root] == Flat(child)[DefaultKey]
    ensures forall p | p in Flat(child) && p != DefaultKey ::
      Writes(root, child)[root + "-" + p] == Flat(child)[p]
    ensures k in Writes(root, child) <==>
      (k == root && DefaultKey in Flat(child)) ||
      (exists p | p in Flat(child) && p != DefaultKey :: k == root + "-" + p)
  {
    var w := Writes(root, child);
    if k in w {
      var p :| p in Flat(child) && QualifiedKey(root, p) == k;
      if p != DefaultKey {
        assert k == root + "-" + p;
      }
    }
    if k == root && DefaultKey in Flat(child) {
      assert QualifiedKey(root, DefaultKey) == root;
    }
    forall p | p in Flat(child) && p != DefaultKey
      ensures root + "-" + p in w && w[root + "-" + p] == Flat(child)[p]
    {
      assert QualifiedKey(root, p) == root + "-" + p;
    }
  }

  /** `__CSS_VALUES__` has no hyphen, so no qualified key `root-p` equals it. */
  lemma ReservedNotQualified(root: string, p: string)
    requires root != Reserved
    ensures QualifiedKey(root, p) != Reserved
  {
    if p != DefaultKey {
      var q := QualifiedKey(root, p);
      assert q[|root|] == '-';
      assert forall c | 0 <= c < |Reserved| :: Reserved[c] != '-';
    }
  }

  /** The structural loop never writes the reserved key. */
  lemma {:induction false} ReservedNotWritten(n: Node, i: nat)
    requires n.Branch? && i <= |n.entries|
    ensures Reserved !in Structural(n, i)
  {
    if i > 0 {
      ReservedNotWritten(n, i - 1);
      var (root, child) := n.entries[i - 1];
      if root != Reserved && child.Branch? {
        if Reserved in Writes(root, child) {
          var p :| p in Flat(child) && QualifiedKey(root, p) == Reserved;
          ReservedNotQualified(root, p);
        }
      }
    }
  }

  /** `__CSS_VALUES__` never appears in a flattened palette, at any nesting level. */
  lemma ReservedNeverEmitted(n: Node, root: string)
    requires n.Branch? && root != Reserved
    ensures Reserved !in Flat(n)
    ensures QualifiedKey(root, Reserved) !in Writes(root, n)
  {
    ReservedNotWritten(n, |n.entries|);
    match ReservedFlags(n.entries) {
      case Some(fs) => PostPassNotReserved(n.entries, Structural(n, |n.entries|), fs);
      case None =>
    }
    QualifiedKeyInjective(root);
  }

  lemma {:induction false} PostPassNotReserved(es: seq<(string, Node)>, acc: map<string, string>, fs: seq<(string, int)>)
    requires Reserved !in acc && ReservedFlags(es).Some?
    ensures Reserved !in PostPass(es, acc, fs)
  {
    if fs != [] {
      PostPassNotReserved(es, acc, fs[..|fs| - 1]);
    }
  }

  /** Whatever the reserved entry holds, the structural loop gives the same result. */
  lemma {:induction false} ReservedContentIgnored(n: Node, i: nat, j: nat, other: Node)
    requires n.Branch? && i <= |n.entries| && j < |n.entries| && n.entries[j].0 == Reserved
    ensures Structural(Branch(n.entries[j := (Reserved, other)]), i) == Structural(n, i)
  {
    if i > 0 {
      ReservedContentIgnored(n, i - 1, j, other);
    }
  }

  /** Some entry of the flag table names k with the DEFAULT bit clear. */
  predicate CopiedBy(fs: seq<(string, int)>, k: string) {
    exists j | 0 <= j < |fs| :: fs[j].0 == k && !HasDefaultFlag(fs[j].1)
  }

  /**
   * The post-pass sets `result[k] = colors[k]` for each key listed with the
   * DEFAULT bit clear, and leaves every other key as the structural loop left it.
   */
  lemma {:induction false} PostPassEffect(es: seq<(string, Node)>, acc: map<string, string>, fs: seq<(string, int)>, k: string)
    ensures CopiedBy(fs, k) && LeafAt(es, k).Some? ==>
      k in PostPass(es, acc, fs) && PostPass(es, acc, fs)[k] == LeafAt(es, k).value
    ensures !(CopiedBy(fs, k) && LeafAt(es, k).Some?) ==>
      (k in PostPass(es, acc, fs) <==> k in acc) &&
      (k in acc ==> PostPass(es, acc, fs)[k] == acc[k])
  {
    if fs != [] {
      var init := fs[..|fs| - 1];
      PostPassEffect(es, acc, init, k);
      var (key, flag) := fs[|fs| - 1];
      if CopiedBy(fs, k) && !CopiedBy(init, k) {
        assert key == k && !HasDefaultFlag(flag);
      }
      if CopiedBy(init, k) {
        var j :| 0 <= j < |init| && init[j].0 == k && !HasDefaultFlag(init[j].1);
        assert fs[j] == init[j];
      }
    }
  }

  /** In a well-formed palette every key the flag table names is a string entry. */
  lemma FlagTableNamesLeaves(n: Node, fs: seq<(string, int)>, k: string)
    requires n.Branch? && WellFormed(n) && ReservedFlags(n.entries) == Some(fs)
    requires exists j | 0 <= j < |fs| :: fs[j].0 == k
    ensures LeafAt(n.entries, k).Some?
  {
    var es := n.entries;
    var r :| 0 <= r < |es| && es[r] == (Reserved, Flags(fs));
    var j :| 0 <= j < |fs| && fs[j].0 == k;
    assert es[r].1.flags[j].0 == k;
  }

  /**
   * The flattened palette: a key listed in `__CSS_VALUES__` without the DEFAULT
   * bit holds the palette's own string for it, after all structural writes;
   * every other key is what the structural loop wrote.
   */
  lemma FlatEffect(n: Node, k: string)
    requires n.Branch? && WellFormed(n)
    ensures var s := Structural(n, |n.entries|);
      match ReservedFlags(n.entries)
      case Some(fs) =>
        && (CopiedBy(fs, k) ==>
              LeafAt(n.entries, k).Some? && k in Flat(n) && Flat(n)[k] == LeafAt(n.entries, k).value)
        && (!CopiedBy(fs, k) ==> (k in Flat(n) <==> k in s) && (k in s ==> Flat(n)[k] == s[k]))
      case None => Flat(n) == s
  {
    var es := n.entries;
    match ReservedFlags(es) {
      case Some(fs) =>
        if CopiedBy(fs, k) {
          FlagTableNamesLeaves(n, fs, k);
        }
        PostPassEffect(es, Structural(n, |es|), fs, k);
      case None =>
    }
  }

  /** An empty palette flattens to an empty record. */
  lemma EmptyPalette()
    ensures Flat(Branch([])) == map[]
  {
  }

  /** No `__CSS_VALUES__` key, and hence no flag table, anywhere in the tree. */
  predicate ReservedFree(n: Node)
    decreases n
  {
    match n
    case Leaf(_) => true
    case Flags(_) => false
    case Branch(es) => forall i | 0 <= i < |es| :: es[i].0 != Reserved && ReservedFree(es[i].1)
  }

  /** The string leaves among the first i entries of n, nested ones included. */
  function LeafValues(n: Node, i: nat): set<string>
    requires n.Branch? && i <= |n.entries|
    decreases n, 0, i
  {
    if i == 0 then {} else LeafValues(n, i - 1) + NodeLeafValues(n.entries[i - 1].1)
  }

  /** The string leaves of one entry's value. */
  function NodeLeafValues(c: Node): set<string>
    decreases c, 1, 0
  {
    match c
    case Leaf(v) => {v}
    case Branch(es) => LeafValues(c, |es|)
    case Flags(_) => {}
  }

  /** The number of string leaves among the first i entries of n, nested ones included. */
  function LeafCount(n: Node, i: nat): nat
    requires n.Branch? && i <= |n.entries|
    decreases n, 0, i
  {
    if i == 0 then 0 else LeafCount(n, i - 1) + NodeLeafCount(n.entries[i - 1].1)
  }

  /** The number of string leaves of one entry's value. */
  function NodeLeafCount(c: Node): nat
    decreases c, 1, 0
  {
    match c
    case Leaf(_) => 1
    case Branch(es) => LeafCount(c, |es|)
    case Flags(_) => 0
  }

  /** Every value of the record m is in vs. */
  predicate ValuesIn(m: map<string, string>, vs: set<string>) {
    forall k | k in m :: m[k] in vs
  }

  /** Qualifying keys adds no value. */
  lemma PrefixedValues(root: string, m: map<string, string>, vs: set<string>)
    requires ValuesIn(m, vs)
    ensures ValuesIn(Prefixed(root, m), vs)
  {
    var r := Prefixed(root, m);
    forall k | k in r ensures r[k] in vs {
      var p :| p in m && QualifiedKey(root, p) == k;
    }
  }

  /** Qualifying keys adds no key. */
  lemma {:induction false} PrefixedSize(root: string, m: map<string, string>)
    ensures |Prefixed(root, m)| <= |m|
    decreases |m|
  {
    if m != map[] {
      var p :| p in m;
      var rest := map q | q in m && q != p :: m[q];
      assert m == rest[p := m[p]];
      assert |rest| < |m| by {
        assert m.Keys == rest.Keys + {p};
      }
      PrefixedSize(root, rest);
      PrefixedInsert(root, rest, p, m[p]);
      var pr := Prefixed(root, rest);
      assert |pr[QualifiedKey(root, p) := m[p]]| <= |pr| + 1;
    }
  }

  /** A union of two records has no more keys, and no other values, than the two. */
  lemma UnionBounds(a: map<string, string>, b: map<string, string>, va: set<string>, vb: set<string>, ca: nat, cb: nat)
    requires ValuesIn(a, va) && ValuesIn(b, vb) && |a| <= ca && |b| <= cb
    ensures ValuesIn(a + b, va + vb)
    ensures |a + b| <= ca + cb
  {
    assert (a + b).Keys == a.Keys + b.Keys;
    assert |(a + b).Keys| <= |a.Keys| + |b.Keys| by {
      assert |a.Keys + b.Keys| + |a.Keys * b.Keys| == |a.Keys| + |b.Keys|;
    }
  }

  /**
   * Without `__CSS_VALUES__` anywhere, every value of the flattened palette is
   * one of its string leaves, and there are no more keys than leaves.
   */
  lemma {:induction false} StructuralBounded(n: Node, i: nat)
    requires n.Branch? && ReservedFree(n) && i <= |n.entries|
    ensures ValuesIn(Structural(n, i), LeafValues(n, i))
    ensures |Structural(n, i)| <= LeafCount(n, i)
    decreases n, 0, i
  {
    if i > 0 {
      var j: nat := i - 1;
      var root, c := n.entries[j].0, n.entries[j].1;
      assert ReservedFree(c);
      StructuralBounded(n, j);
      WritesBounded(root, c);
      UnionBounds(Structural(n, j), Writes(root, c),
        LeafValues(n, j), NodeLeafValues(c), LeafCount(n, j), NodeLeafCount(c));
      UnfoldStep(n, i, j);
    }
  }

  lemma UnfoldStep(n: Node, i: nat, j: nat)
    requires n.Branch? && i <= |n.entries| && j + 1 == i
    ensures Structural(n, i) == Structural(n, j) + Writes(n.entries[j].0, n.entries[j].1)
    ensures LeafValues(n, i) == LeafValues(n, j) + NodeLeafValues(n.entries[j].1)
    ensures LeafCount(n, i) == LeafCount(n, j) + NodeLeafCount(n.entries[j].1)
  {
  }

  lemma {:induction false} WritesBounded(root: string, c: Node)
    requires ReservedFree(c)
    ensures ValuesIn(Writes(root, c), NodeLeafValues(c))
    ensures |Writes(root, c)| <= NodeLeafCount(c)
    decreases c, 1, 0
  {
    if root != Reserved && c.Branch? {
      StructuralBounded(c, |c.entries|);
      FlatBounded(c);
      PrefixedValues(root, Flat(c), NodeLeafValues(c));
      PrefixedSize(root, Flat(c));
    }
  }

  lemma FlatBounded(n: Node)
    requires n.Branch? && ReservedFree(n)
    ensures Flat(n) == Structural(n, |n.entries|)
  {
    assert Lookup(n.entries, Reserved).None?;
  }

  /** The two bounds for a whole palette. */
  lemma NoReservedBounds(n: Node)
    requires n.Branch? && ReservedFree(n)
    ensures Flat(n).Values <= LeafValues(n, |n.entries|)
    ensures |Flat(n)| <= LeafCount(n, |n.entries|)
  {
    FlatBounded(n);
    StructuralBounded(n, |n.entries|);
    var f := Flat(n);
    forall v | v in f.Values ensures v in LeafValues(n, |n.entries|) {
      var k :| k in f && f[k] == v;
    }
  }
}
