/** The tree of regions, kept in an arena.

    A region is identified by its index in the arena. The root is at index 0
    and every other region comes after its parent, so a parent link always
    points backwards and every child link forwards; any tree can be numbered
    this way. */
module Regions {
  import opened Wrappers

  type RegionId = nat

  /** The navigator attached to a region: the navigator whose
      `CoreNavigateAsync`, `QualifierIsSupported` and `CanNavigateToRoute`
      are the ones of the base class, or one of the derived navigators that
      override them. */
  datatype NavigatorKind = Composite | Specialised

  datatype Region = Region(
    name: string,
    parent: Option<RegionId>,
    children: seq<RegionId>,
    hasServices: bool,
    hasDialogFactory: bool,
    kind: NavigatorKind)

  /** `char.IsWhiteSpace`: the controls U+0009 to U+000D and U+0085, and the
      Unicode space, line and paragraph separators. */
  predicate IsWhiteSpace(c: char) {
    || ('\U{0009}' <= c <= '\U{000D}') || c == '\U{0085}'
    || c == ' ' || c == '\U{00A0}' || c == '\U{1680}' || ('\U{2000}' <= c <= '\U{200A}')
    || c == '\U{2028}' || c == '\U{2029}' || c == '\U{202F}' || c == '\U{205F}' || c == '\U{3000}'
  }

  /** `string.IsNullOrWhiteSpace`; a null name is the empty string here. */
  predicate IsBlank(s: string) {
    forall k :: 0 <= k < |s| ==> IsWhiteSpace(s[k])
  }

  predicate IsNamed(r: Region) {
    !IsBlank(r.name)
  }

  predicate NoDuplicates(s: seq<RegionId>) {
    forall a, b :: 0 <= a < b < |s| ==> s[a] != s[b]
  }

  /** The arena holds one tree: parent and child links agree, the root comes
      first, parents precede children, and no child is listed twice. */
  ghost predicate TreeValid(tree: seq<Region>) {
    && |tree| > 0
    && tree[0].parent.None?
    && (forall i :: 0 < i < |tree| ==>
          tree[i].parent.Some? && tree[i].parent.value < i && i in tree[tree[i].parent.value].children)
    && (forall i, k :: 0 <= i < |tree| && 0 <= k < |tree[i].children| ==>
          i < tree[i].children[k] < |tree| && tree[tree[i].children[k]].parent == Some(i))
    && (forall i :: 0 <= i < |tree| ==> NoDuplicates(tree[i].children))
  }

  /** A child is taken by a fan-out when it is unnamed, is named like the
      route's base, or is named like the base of the navigator's current
      route. */
  predicate ChildMatches(child: Region, base: string, current: Option<string>) {
    IsBlank(child.name) || child.name == base || (current.Some? && child.name == current.value)
  }

  /** The children taken by a fan-out, in child order. */
  function SelectChildren(tree: seq<Region>, cs: seq<RegionId>, base: string, current: Option<string>): (r: seq<RegionId>)
    requires forall k :: 0 <= k < |cs| ==> cs[k] < |tree|
    ensures |r| <= |cs|
    ensures forall c :: c in r ==> c in cs
    ensures forall k :: 0 <= k < |cs| ==> (cs[k] in r <==> ChildMatches(tree[cs[k]], base, current))
    ensures NoDuplicates(cs) ==> NoDuplicates(r)
    ensures InOrder(r, cs)
  {
    if cs == [] then []
    else
      var rest := SelectChildren(tree, cs[1..], base, current);
      assert forall k :: 1 <= k < |cs| ==> cs[k] == cs[1..][k - 1];
      ShiftInOrder(rest, cs);
      if ChildMatches(tree[cs[0]], base, current) then
        assert NoDuplicates(cs) ==> NoDuplicates([cs[0]] + rest) by {
          if NoDuplicates(cs) {
            assert NoDuplicates(cs[1..]);
            assert cs[0] !in cs[1..];
            ConsNoDuplicates(cs[0], rest);
          }
        }
        ConsInOrder(rest, cs);
        [cs[0]] + rest
      else rest
  }

  /** Any two elements of `r` occur in `cs` in the same order. */
  ghost predicate InOrder(r: seq<RegionId>, cs: seq<RegionId>) {
    forall a, b :: 0 <= a < b < |r| ==> Precedes(cs, r[a], r[b])
  }

  /** `u` occurs in `cs` before `v`. */
  ghost predicate Precedes(cs: seq<RegionId>, u: RegionId, v: RegionId) {
    exists x, y :: 0 <= x < y < |cs| && cs[x] == u && cs[y] == v
  }

  lemma ShiftInOrder(r: seq<RegionId>, cs: seq<RegionId>)
    requires cs != [] && InOrder(r, cs[1..])
    ensures InOrder(r, cs)
  {
    forall a, b | 0 <= a < b < |r| ensures Precedes(cs, r[a], r[b]) {
      var x, y :| 0 <= x < y < |cs[1..]| && cs[1..][x] == r[a] && cs[1..][y] == r[b];
      assert cs[x + 1] == r[a] && cs[y + 1] == r[b];
    }
  }

  lemma ConsInOrder(rest: seq<RegionId>, cs: seq<RegionId>)
    requires cs != [] && InOrder(rest, cs) && forall c :: c in rest ==> c in cs[1..]
    ensures InOrder([cs[0]] + rest, cs)
  {
    var r := [cs[0]] + rest;
    forall a, b | 0 <= a < b < |r| ensures Precedes(cs, r[a], r[b]) {
      assert r[b] == rest[b - 1];
      if a == 0 {
        assert rest[b - 1] in cs[1..];
        var y :| 0 <= y < |cs[1..]| && cs[1..][y] == rest[b - 1];
        assert cs[0] == r[a] && cs[y + 1] == r[b];
      } else {
        assert r[a] == rest[a - 1];
        var x, y :| 0 <= x < y < |cs| && cs[x] == rest[a - 1] && cs[y] == rest[b - 1];
      }
    }
  }

  lemma ConsNoDuplicates(c: RegionId, s: seq<RegionId>)
    requires c !in s && NoDuplicates(s)
    ensures NoDuplicates([c] + s)
  {
    forall a, b | 0 <= a < b < |[c] + s| ensures ([c] + s)[a] != ([c] + s)[b] {
      assert ([c] + s)[b] == s[b - 1];
      if a > 0 {
        assert ([c] + s)[a] == s[a - 1];
      }
    }
  }

  /** `a` is a proper ancestor of `i`. */
  ghost predicate IsAncestor(tree: seq<Region>, a: RegionId, i: RegionId)
    requires TreeValid(tree) && i < |tree|
    decreases i
  {
    tree[i].parent.Some? && (tree[i].parent.value == a || IsAncestor(tree, a, tree[i].parent.value))
  }

  /** Ancestors come before their descendants in the arena. */
  lemma {:induction false} AncestorPrecedes(tree: seq<Region>, a: RegionId, i: RegionId)
    requires TreeValid(tree) && i < |tree| && IsAncestor(tree, a, i)
    ensures a < i
    decreases i
  {
    var p := tree[i].parent.value;
    if p != a {
      AncestorPrecedes(tree, a, p);
    }
  }
}
