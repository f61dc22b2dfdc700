/** Reconciling a channel's model list with what its upstream serves: the list
    operations, detecting pending changes, applying the selected ones. */
module Upstream {
  import opened Text

  // ---------------------------------------------------------------------
  // Ordered, duplicate-free lists of names
  // ---------------------------------------------------------------------

  ghost predicate NoRepeats(l: seq<string>) { forall i, j :: 0 <= i < j < |l| ==> l[i] != l[j] }

  predicate IsClean(m: string) { m != "" && TrimSpace(m) == m }

  /** A list normalizing leaves alone. */
  ghost predicate Normal(l: seq<string>) { NoRepeats(l) && forall m :: m in l ==> IsClean(m) }

  function Elems(l: seq<string>): (s: set<string>)
    ensures forall m :: m in s <==> m in l
  {
    set m | m in l
  }

  /** lo.Uniq: the first occurrence of each element. */
  function Uniq(l: seq<string>): (r: seq<string>)
    ensures Elems(r) == Elems(l)
    ensures NoRepeats(r)
  {
    if l == [] then []
    else
      var init := Uniq(l[..|l| - 1]);
      var last := l[|l| - 1];
      assert l == l[..|l| - 1] + [last];
      if last in init then init else init + [last]
  }

  /** normalizeModelNames. */
  function Normalize(models: seq<string>): seq<string> { Uniq(NonBlank(models)) }

  /** The elements outside a set, in order. */
  function Without(l: seq<string>, s: set<string>): (r: seq<string>)
    ensures Elems(r) == Elems(l) - s
  {
    if l == [] then []
    else
      var init := l[..|l| - 1];
      var last := l[|l| - 1];
      assert l == init + [last];
      Without(init, s) + if last in s then [] else [last]
  }

  /** mergeModelNames. */
  function Merge(base: seq<string>, appended: seq<string>): seq<string> {
    Normalize(base) + Without(Normalize(appended), Elems(Normalize(base)))
  }

  /** subtractModelNames. */
  function Subtract(base: seq<string>, removed: seq<string>): seq<string> {
    Without(Normalize(base), Elems(Normalize(removed)))
  }

  /** intersectModelNames. */
  function Intersect(base: seq<string>, allowed: seq<string>): seq<string> {
    Without(Normalize(base), Elems(Normalize(base)) - Elems(Normalize(allowed)))
  }

  /** applySelectedModelChanges. */
  function ApplySelected(origin: seq<string>, add: seq<string>, remove: seq<string>): seq<string> {
    var normalizedAdd := Normalize(add);
    var normalizedRemove := Subtract(Normalize(remove), normalizedAdd);
    Subtract(Merge(origin, normalizedAdd), normalizedRemove)
  }

  lemma {:induction false} WithoutNoRepeats(l: seq<string>, s: set<string>)
    requires NoRepeats(l)
    ensures NoRepeats(Without(l, s))
  {
    if l != [] {
      var init := l[..|l| - 1];
      WithoutNoRepeats(init, s);
      var last := l[|l| - 1];
      assert last !in Elems(init);
      assert last !in Elems(Without(init, s));
      Snoc(Without(init, s), last);
    }
  }

  lemma {:induction false} Snoc(l: seq<string>, last: string)
    requires NoRepeats(l) && last !in Elems(l)
    ensures NoRepeats(l + [last])
  {
    forall i, j | 0 <= i < j < |l| + 1 ensures (l + [last])[i] != (l + [last])[j] {
      if j == |l| { var m := l[i]; assert m in Elems(l); }
    }
  }

  /** Filtering keeps a list normal. */
  lemma {:induction false} WithoutNormal(l: seq<string>, s: set<string>)
    requires Normal(l)
    ensures Normal(Without(l, s))
  {
    WithoutNoRepeats(l, s);
    forall m | m in Without(l, s) ensures IsClean(m) { assert m in Elems(Without(l, s)); }
  }

  lemma {:induction false} WithoutAppend(a: seq<string>, b: seq<string>, s: set<string>)
    ensures Without(a + b, s) == Without(a, s) + Without(b, s)
  {
    if b == [] {
      assert a + b == a;
    } else {
      assert (a + b)[..|a + b| - 1] == a + b[..|b| - 1];
      WithoutAppend(a, b[..|b| - 1], s);
    }
  }

  lemma {:induction false} WithoutNothing(l: seq<string>, s: set<string>)
    requires Elems(l) !! s
    ensures Without(l, s) == l
  {
    if l != [] {
      var init := l[..|l| - 1];
      assert l == init + [l[|l| - 1]];
      assert l[|l| - 1] in Elems(l);
      assert Elems(init) <= Elems(l);
      WithoutNothing(init, s);
    }
  }

  lemma {:induction false} AppendNormal(a: seq<string>, b: seq<string>)
    requires Normal(a) && Normal(b) && Elems(a) !! Elems(b)
    ensures Normal(a + b) && Elems(a + b) == Elems(a) + Elems(b)
  {
    forall i, j | 0 <= i < j < |a + b| ensures (a + b)[i] != (a + b)[j] {
      if i < |a| <= j { assert (a + b)[i] in Elems(a) && (a + b)[j] in Elems(b); }
    }
  }

  lemma {:induction false} NonBlankClean(l: seq<string>)
    ensures forall m :: m in NonBlank(l) ==> IsClean(m)
  {
    if l != [] { NonBlankClean(l[..|l| - 1]); }
  }

  lemma {:induction false} NonBlankSepFree(l: seq<string>, sep: char)
    requires SepFree(l, sep)
    ensures SepFree(NonBlank(l), sep)
  {
    if l != [] {
      var last := l[|l| - 1];
      assert last in l;
      assert SepFree(l[..|l| - 1], sep);
      NonBlankSepFree(l[..|l| - 1], sep);
    }
  }

  lemma {:induction false} NonBlankFixes(l: seq<string>)
    requires forall m :: m in l ==> IsClean(m)
    ensures NonBlank(l) == l
  {
    if l != [] {
      var last := l[|l| - 1];
      assert last in l;
      assert l == l[..|l| - 1] + [last];
      NonBlankFixes(l[..|l| - 1]);
    }
  }

  lemma {:induction false} UniqFixes(l: seq<string>)
    requires NoRepeats(l)
    ensures Uniq(l) == l
  {
    if l != [] {
      assert l == l[..|l| - 1] + [l[|l| - 1]];
      UniqFixes(l[..|l| - 1]);
    }
  }

  /** `a` occurs before any `b` does. */
  ghost predicate Before(l: seq<string>, a: string, b: string) {
    exists p :: 0 <= p < |l| && l[p] == a && b !in l[..p + 1]
  }

  /** The elements of `r` come in the order in which `l` first has them. */
  ghost predicate InOrderOf(r: seq<string>, l: seq<string>) {
    forall i, j :: 0 <= i < j < |r| ==> Before(l, r[i], r[j])
  }

  lemma {:induction false} BeforeGrows(l: seq<string>, more: seq<string>, a: string, b: string)
    requires Before(l, a, b)
    ensures Before(l + more, a, b)
  {
    var p :| 0 <= p < |l| && l[p] == a && b !in l[..p + 1];
    assert (l + more)[..p + 1] == l[..p + 1];
    assert (l + more)[p] == a;
  }

  lemma {:induction false} BeforeNew(l: seq<string>, a: string, b: string)
    requires a in l && b !in l
    ensures Before(l, a, b)
  {
    var p :| 0 <= p < |l| && l[p] == a;
    assert forall x :: x in l[..p + 1] ==> x in l;
  }

  lemma {:induction false} OrderSnoc(r: seq<string>, l: seq<string>, last: string, keep: bool)
    requires InOrderOf(r, l) && Elems(r) <= Elems(l) && (keep ==> last !in l)
    ensures InOrderOf(if keep then r + [last] else r, l + [last])
  {
    var all := if keep then r + [last] else r;
    forall i, j | 0 <= i < j < |all| ensures Before(l + [last], all[i], all[j]) {
      assert all[i] in Elems(r);
      if j == |r| { BeforeNew(l, all[i], last); }
      BeforeGrows(l, [last], all[i], all[j]);
    }
  }

  lemma {:induction false} UniqInOrder(l: seq<string>)
    ensures InOrderOf(Uniq(l), l)
  {
    if l != [] {
      var init, last := l[..|l| - 1], l[|l| - 1];
      assert l == init + [last];
      UniqInOrder(init);
      OrderSnoc(Uniq(init), init, last, last !in Uniq(init)) by { assert last in Elems(Uniq(init)) <==> last in init; }
    }
  }

  lemma {:induction false} WithoutInOrder(l: seq<string>, s: set<string>)
    requires NoRepeats(l)
    ensures InOrderOf(Without(l, s), l)
  {
    if l != [] {
      var init, last := l[..|l| - 1], l[|l| - 1];
      assert l == init + [last];
      WithoutInOrder(init, s);
      OrderSnoc(Without(init, s), init, last, last !in s);
      assert last in s ==> Without(init, s) + [] == Without(init, s);
    }
  }

  /** Normalizing keeps the trimmed names that are not blank, each where it first
      occurs. */
  lemma {:induction false} NormalizeExact(l: seq<string>)
    ensures forall m :: m in Normalize(l) <==> m != "" && exists x :: x in l && TrimSpace(x) == m
    ensures NoRepeats(Normalize(l)) && InOrderOf(Normalize(l), NonBlank(l))
  {
    NonBlankElements(l);
    UniqInOrder(NonBlank(l));
    hide NonBlank, TrimSpace, Uniq;
    assert forall m :: m in Elems(Normalize(l)) <==> m in Elems(NonBlank(l));
  }

  /** Normalizing gives a normal list and leaves a normal list alone. */
  lemma {:induction false} NormalizeNormal(l: seq<string>)
    ensures Normal(Normalize(l))
    ensures Normal(l) ==> Normalize(l) == l
  {
    NonBlankClean(l);
    var r := Normalize(l);
    forall m | m in r ensures IsClean(m) { assert m in Elems(NonBlank(l)); }
    if Normal(l) {
      NonBlankFixes(l);
      UniqFixes(l);
    }
  }

  lemma {:induction false} NormalizeSepFree(l: seq<string>, sep: char)
    requires SepFree(l, sep)
    ensures SepFree(Normalize(l), sep)
  {
    NonBlankSepFree(l, sep);
    forall m | m in Normalize(l) ensures sep !in m { assert m in Elems(NonBlank(l)); }
  }

  /** Merging keeps the base in front and appends, in order, the names the base
      lacks. */
  lemma {:induction false} MergeNormal(base: seq<string>, appended: seq<string>)
    ensures Normal(Merge(base, appended))
    ensures Elems(Merge(base, appended)) == Elems(Normalize(base)) + Elems(Normalize(appended))
  {
    hide Normalize, Without, Normal;
    NormalizeNormal(base);
    NormalizeNormal(appended);
    WithoutNormal(Normalize(appended), Elems(Normalize(base)));
    AppendNormal(Normalize(base), Without(Normalize(appended), Elems(Normalize(base))));
  }

  lemma {:induction false} SubtractNormal(base: seq<string>, removed: seq<string>)
    ensures Normal(Subtract(base, removed))
    ensures Elems(Subtract(base, removed)) == Elems(Normalize(base)) - Elems(Normalize(removed))
  {
    hide Normalize, Without, Normal;
    NormalizeNormal(base);
    WithoutNormal(Normalize(base), Elems(Normalize(removed)));
  }

  lemma {:induction false} IntersectNormal(base: seq<string>, allowed: seq<string>)
    ensures Normal(Intersect(base, allowed))
    ensures Elems(Intersect(base, allowed)) == Elems(Normalize(base)) * Elems(Normalize(allowed))
  {
    hide Normalize, Without, Normal;
    NormalizeNormal(base);
    WithoutNormal(Normalize(base), Elems(Normalize(base)) - Elems(Normalize(allowed)));
  }

  /** The new list: the origin less what is removed and not added, followed by
      the additions the origin lacks, each part in its own order. */
  lemma {:induction false} ApplySelectedList(origin: seq<string>, add: seq<string>, remove: seq<string>)
    ensures var o := Normalize(origin);
            var a := Normalize(add);
            ApplySelected(origin, add, remove) == Without(o, Elems(Normalize(remove)) - Elems(a)) + Without(a, Elems(o))
  {
    hide Normalize, Without, Normal;
    var o := Normalize(origin);
    var a := Normalize(add);
    var r := Subtract(Normalize(remove), a);
    NormalizeNormal(origin);
    NormalizeNormal(add);
    NormalizeNormal(remove);
    NormalizeNormal(Normalize(remove));
    SubtractNormal(Normalize(remove), a);
    NormalizeNormal(r);
    NormalizeNormal(a);
    MergeNormal(origin, a);
    NormalizeNormal(Merge(origin, a));
    WithoutAppend(o, Without(a, Elems(o)), Elems(r));
    WithoutNothing(Without(a, Elems(o)), Elems(r));
  }

  lemma {:induction false} ApplySelectedNormal(origin: seq<string>, add: seq<string>, remove: seq<string>)
    ensures var next := ApplySelected(origin, add, remove);
            && Normal(next)
            && Elems(next) == (Elems(Normalize(origin)) + Elems(Normalize(add)))
                              - (Elems(Normalize(remove)) - Elems(Normalize(add)))
  {
    hide Normalize, Without, Normal;
    var o := Normalize(origin);
    var a := Normalize(add);
    NormalizeNormal(origin);
    NormalizeNormal(add);
    ApplySelectedList(origin, add, remove);
    WithoutNormal(o, Elems(Normalize(remove)) - Elems(a));
    WithoutNormal(a, Elems(o));
    AppendNormal(Without(o, Elems(Normalize(remove)) - Elems(a)), Without(a, Elems(o)));
  }
}
