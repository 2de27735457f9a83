/** The parts of `std::path` (Windows flavour) the core relies on: `Path::parent`
    and `Path::join` of a relative path. */
module Paths {
  import opened Wrappers

  /** Windows accepts both slashes; `join` writes a backslash. */
  predicate IsSeparator(c: char) { c == '\\' || c == '/' }

  const SEPARATOR: char := '\\'

  predicate AllSeparators(p: string) { forall i :: 0 <= i < |p| ==> IsSeparator(p[i]) }

  /** The path without the separators it ends in. */
  function TrimTrailingSeparators(p: string): (q: string)
    ensures q <= p
    ensures q == [] || !IsSeparator(q[|q| - 1])
    ensures forall i :: |q| <= i < |p| ==> IsSeparator(p[i])
  {
    if p != [] && IsSeparator(p[|p| - 1]) then TrimTrailingSeparators(p[..|p| - 1]) else p
  }

  /** Position of the last separator, if there is one. */
  function LastSeparator(p: string): (r: Option<nat>)
    ensures r.Some? ==> r.value < |p| && IsSeparator(p[r.value])
    ensures r.Some? ==> forall i :: r.value < i < |p| ==> !IsSeparator(p[i])
    ensures r.None? ==> !exists i :: 0 <= i < |p| && IsSeparator(p[i])
  {
    if p == [] then None
    else if IsSeparator(p[|p| - 1]) then Some(|p| - 1)
    else LastSeparator(p[..|p| - 1])
  }

  /** `Path::parent`: the path without its last component. A path made only of
      separators (a root) or the empty path has no parent; a single relative
      component has the empty path as parent. */
  function Parent(p: string): (r: Option<string>)
    ensures r.None? <==> AllSeparators(p)
    ensures r.Some? ==> r.value < p
  {
    var q := TrimTrailingSeparators(p);
    if q == [] then None
    else match LastSeparator(q)
      case None => Some([])
      case Some(i) =>
        var head := TrimTrailingSeparators(q[..i]);
        if head == [] then Some(q[..i + 1]) else Some(head)
  }

  /** What `Parent` drops is exactly the last component: after the trailing
      separators are trimmed, the path is the parent, then the separators between
      them (`m` is where the last component starts), then a last component without
      separators. The parent keeps no trailing separator unless it is a root. */
  lemma ParentDropsLastComponent(p: string) returns (m: nat)
    requires Parent(p).Some?
    ensures var q, r := TrimTrailingSeparators(p), Parent(p).value;
      r <= q && |r| <= m < |q| &&
      (forall i :: |r| <= i < m ==> IsSeparator(q[i])) &&
      (forall i :: m <= i < |q| ==> !IsSeparator(q[i])) &&
      (r == [] ==> m == 0) &&
      ((r != [] && !IsSeparator(r[|r| - 1]) && |r| < m) || (AllSeparators(r) && |r| == m))
  {
    var q := TrimTrailingSeparators(p);
    match LastSeparator(q)
    case None =>
      m := 0;
    case Some(i) =>
      m := i + 1;
      var head := TrimTrailingSeparators(q[..i]);
      if head == [] {
        assert AllSeparators(q[..i + 1]);
      }
  }

  /** `Path::join` of a relative path: one separator between the two, none after
      an empty base or a base that already ends in one. */
  function Join(base: string, rel: string): (r: string)
    ensures base <= r
    ensures |base| + |rel| <= |r| <= |base| + 1 + |rel|
    ensures r[|r| - |rel|..] == rel
    ensures |r| == |base| + 1 + |rel| <==> base != [] && !IsSeparator(base[|base| - 1])
    ensures |r| == |base| + 1 + |rel| ==> r[|base|] == SEPARATOR
  {
    if base == [] || IsSeparator(base[|base| - 1]) then base + rel else base + [SEPARATOR] + rel
  }
}
