/**
 The scope flags of `src/client.rs` and the reference definition of the ordered list of
 scope strings that `TokenBuilder::new` asks for. The struct declares the flags in the
 order read_public, write_public, read_relationships, write_relationships, but the
 scopes are requested in the order read_public, read_relationships, write_public,
 write_relationships; both orders are kept apart here.
 */
module Scopes {

  /** The four permission flags, in declaration order. */
  datatype Scope = Scope(
    readPublic: bool,
    writePublic: bool,
    readRelationships: bool,
    writeRelationships: bool)

  /** `Scope::default`: no permission is requested. */
  function DefaultScope(): (s: Scope)
    ensures forall p: Permission :: !Granted(s, p)
    ensures CountGranted(s) == 0
  {
    Scope(false, false, false, false)
  }

  /** One constructor per flag of `Scope`, in declaration order. */
  datatype Permission = ReadPublic | WritePublic | ReadRelationships | WriteRelationships

  /** Whether the flag for `p` is set in `s`. */
  function Granted(s: Scope, p: Permission): bool
  {
    match p
    case ReadPublic => s.readPublic
    case WritePublic => s.writePublic
    case ReadRelationships => s.readRelationships
    case WriteRelationships => s.writeRelationships
  }

  /** The number of flags set in `s`. */
  function CountGranted(s: Scope): (n: nat)
    ensures n <= 4
  {
    (if s.readPublic then 1 else 0) + (if s.writePublic then 1 else 0)
    + (if s.readRelationships then 1 else 0) + (if s.writeRelationships then 1 else 0)
  }

  /** The scope string the authorization server knows the permission by. */
  function Name(p: Permission): string
  {
    match p
    case ReadPublic => "read_public"
    case WritePublic => "write_public"
    case ReadRelationships => "read_relationships"
    case WriteRelationships => "write_relationships"
  }

  lemma NameInjective(p: Permission, q: Permission)
    ensures Name(p) == Name(q) <==> p == q
  {
  }

  /** The order in which the flags are declared in the struct. */
  const DeclarationOrder: seq<Permission> := [ReadPublic, WritePublic, ReadRelationships, WriteRelationships]

  /** The order in which the scopes are requested. */
  const EmissionOrder: seq<Permission> := [ReadPublic, ReadRelationships, WritePublic, WriteRelationships]

  /** The position of `p` in the request order. */
  function Rank(p: Permission): (r: nat)
    ensures r < |EmissionOrder| && EmissionOrder[r] == p
  {
    match p
    case ReadPublic => 0
    case ReadRelationships => 1
    case WritePublic => 2
    case WriteRelationships => 3
  }

  /** Each element strictly after the previous one in request order (so also no repeats). */
  predicate StrictlyRanked(ps: seq<Permission>)
  {
    forall i, j :: 0 <= i < j < |ps| ==> Rank(ps[i]) < Rank(ps[j])
  }

  /** The elements of `ps` whose flag is set, in the order of `ps`. */
  function Select(s: Scope, ps: seq<Permission>): seq<Permission>
  {
    if ps == [] then []
    else if Granted(s, ps[0]) then [ps[0]] + Select(s, ps[1..])
    else Select(s, ps[1..])
  }

  function Names(ps: seq<Permission>): (r: seq<string>)
    ensures |r| == |ps|
    ensures forall k :: 0 <= k < |ps| ==> r[k] == Name(ps[k])
  {
    if ps == [] then [] else [Name(ps[0])] + Names(ps[1..])
  }

  /** The scopes `TokenBuilder::new` requests for `s`, in request order. */
  function ResolvedScopes(s: Scope): seq<string>
  {
    Names(Select(s, EmissionOrder))
  }

  /** `xs` can be obtained from `ys` by deleting elements. */
  predicate IsSubsequence<T(==)>(xs: seq<T>, ys: seq<T>)
  {
    xs == [] || (ys != [] && ((xs[0] == ys[0] && IsSubsequence(xs[1..], ys[1..])) || IsSubsequence(xs, ys[1..])))
  }

  // ---------------------------------------------------------------------------
  // Lemmas about Select over an arbitrary list of permissions

  lemma {:induction false} SelectMembers(s: Scope, ps: seq<Permission>, p: Permission)
    ensures p in Select(s, ps) <==> p in ps && Granted(s, p)
  {
    if ps != [] {
      SelectMembers(s, ps[1..], p);
      assert ps == [ps[0]] + ps[1..];
    }
  }

  lemma {:induction false} SelectIsSubsequence(s: Scope, ps: seq<Permission>)
    ensures IsSubsequence(Select(s, ps), ps)
  {
    if ps != [] {
      SelectIsSubsequence(s, ps[1..]);
      if Granted(s, ps[0]) {
        var r := Select(s, ps);
        assert r[0] == ps[0] && r[1..] == Select(s, ps[1..]);
      }
    }
  }

  lemma {:induction false} SelectPreservesRanked(s: Scope, ps: seq<Permission>)
    requires StrictlyRanked(ps)
    ensures StrictlyRanked(Select(s, ps))
  {
    if ps != [] {
      var tail := ps[1..];
      assert StrictlyRanked(tail) by {
        forall i, j | 0 <= i < j < |tail| ensures Rank(tail[i]) < Rank(tail[j]) {
          assert tail[i] == ps[i + 1] && tail[j] == ps[j + 1];
        }
      }
      SelectPreservesRanked(s, tail);
      if Granted(s, ps[0]) {
        var r := Select(s, ps);
        assert r == [ps[0]] + Select(s, tail);
        forall j | 0 < j < |r| ensures Rank(r[0]) < Rank(r[j]) {
          SelectMembers(s, tail, r[j]);
          var k :| 0 <= k < |tail| && tail[k] == r[j];
          assert ps[k + 1] == r[j];
        }
      }
    }
  }

  lemma {:induction false} NamesPreserveSubsequence(xs: seq<Permission>, ys: seq<Permission>)
    requires IsSubsequence(xs, ys)
    ensures IsSubsequence(Names(xs), Names(ys))
    decreases |ys|
  {
    if xs != [] {
      assert Names(xs)[1..] == Names(xs[1..]);
      assert Names(ys)[1..] == Names(ys[1..]);
      if xs[0] == ys[0] && IsSubsequence(xs[1..], ys[1..]) {
        NamesPreserveSubsequence(xs[1..], ys[1..]);
      } else {
        NamesPreserveSubsequence(xs, ys[1..]);
      }
    }
  }

  lemma RankedTail(xs: seq<Permission>)
    requires xs != [] && StrictlyRanked(xs)
    ensures StrictlyRanked(xs[1..])
    ensures forall p :: p in xs[1..] ==> Rank(xs[0]) < Rank(p)
  {
  }

  /** The head of a strictly ranked list is its member of least rank. */
  lemma RankedHeadLeast(xs: seq<Permission>, p: Permission)
    requires xs != [] && StrictlyRanked(xs) && p in xs
    ensures Rank(xs[0]) <= Rank(p)
  {
  }

  /** A strictly ranked list is determined by its members. */
  lemma {:induction false} RankedUnique(xs: seq<Permission>, ys: seq<Permission>)
    requires StrictlyRanked(xs) && StrictlyRanked(ys)
    requires forall p :: p in xs <==> p in ys
    ensures xs == ys
    decreases |xs|
  {
    assert xs == [] <==> ys == [] by {
      if xs != [] { assert xs[0] in ys; }
      if ys != [] { assert ys[0] in xs; }
    }
    if xs != [] {
      assert xs[0] in ys && ys[0] in xs;
      RankedHeadLeast(xs, ys[0]);
      RankedHeadLeast(ys, xs[0]);
      assert EmissionOrder[Rank(xs[0])] == xs[0] && EmissionOrder[Rank(ys[0])] == ys[0];
      var xt, yt := xs[1..], ys[1..];
      RankedTail(xs);
      RankedTail(ys);
      assert xs == [xs[0]] + xt && ys == [ys[0]] + yt;
      forall p ensures p in xt <==> p in yt {
        assert xs[0] == ys[0];
        assert p in xs <==> p == xs[0] || p in xt;
        assert p in ys <==> p == ys[0] || p in yt;
        assert p in xt ==> p != xs[0];
        assert p in yt ==> p != ys[0];
      }
      RankedUnique(xt, yt);
    }
  }

  // ---------------------------------------------------------------------------
  // Properties of the resolved scope list

  /** The permissions selected from the request order, flag by flag. */
  lemma SelectInRequestOrder(s: Scope)
    ensures Select(s, EmissionOrder) ==
      (if s.readPublic then [ReadPublic] else [])
      + (if s.readRelationships then [ReadRelationships] else [])
      + (if s.writePublic then [WritePublic] else [])
      + (if s.writeRelationships then [WriteRelationships] else [])
  {
    var e0 := EmissionOrder;
    var e1 := [ReadRelationships, WritePublic, WriteRelationships];
    var e2 := [WritePublic, WriteRelationships];
    var e3 := [WriteRelationships];
    assert e0[1..] == e1 && e1[1..] == e2 && e2[1..] == e3 && e3[1..] == [];
    assert Select(s, e3) == (if s.writeRelationships then [WriteRelationships] else []);
    assert Select(s, e2) == (if s.writePublic then [WritePublic] else []) + Select(s, e3);
    assert Select(s, e1) == (if s.readRelationships then [ReadRelationships] else []) + Select(s, e2);
    assert Select(s, e0) == (if s.readPublic then [ReadPublic] else []) + Select(s, e1);
  }

  /** The resolved list spelled out flag by flag, in request order. */
  lemma ResolvedScopesUnfolded(s: Scope)
    ensures ResolvedScopes(s) ==
      (if s.readPublic then ["read_public"] else [])
      + (if s.readRelationships then ["read_relationships"] else [])
      + (if s.writePublic then ["write_public"] else [])
      + (if s.writeRelationships then ["write_relationships"] else [])
  {
    SelectInRequestOrder(s);
    var a := if s.readPublic then [ReadPublic] else [];
    var b := if s.readRelationships then [ReadRelationships] else [];
    var c := if s.writePublic then [WritePublic] else [];
    var d := if s.writeRelationships then [WriteRelationships] else [];
    NamesAppend(a, b);
    NamesAppend(a + b, c);
    NamesAppend(a + b + c, d);
  }

  lemma NamesAppend(xs: seq<Permission>, ys: seq<Permission>)
    ensures Names(xs + ys) == Names(xs) + Names(ys)
  {
  }

  /** A scope string is requested exactly when its flag is set, and nothing else is requested. */
  lemma ResolvedScopesMembers(s: Scope, name: string)
    ensures name in ResolvedScopes(s) <==> exists p :: Name(p) == name && Granted(s, p)
    ensures "read_public" in ResolvedScopes(s) <==> s.readPublic
    ensures "write_public" in ResolvedScopes(s) <==> s.writePublic
    ensures "read_relationships" in ResolvedScopes(s) <==> s.readRelationships
    ensures "write_relationships" in ResolvedScopes(s) <==> s.writeRelationships
  {
    var sel := Select(s, EmissionOrder);
    forall p ensures Name(p) in ResolvedScopes(s) <==> Granted(s, p) {
      SelectMembers(s, EmissionOrder, p);
      if Name(p) in ResolvedScopes(s) {
        var k :| 0 <= k < |sel| && Name(sel[k]) == Name(p);
        NameInjective(sel[k], p);
        assert sel[k] == p;
      }
      if p in sel {
        var k :| 0 <= k < |sel| && sel[k] == p;
        assert ResolvedScopes(s)[k] == Name(p);
      }
    }
    if name in ResolvedScopes(s) {
      var k :| 0 <= k < |sel| && ResolvedScopes(s)[k] == name;
      assert Name(sel[k]) == name;
    }
    assert Name(ReadPublic) == "read_public";
    assert Name(WritePublic) == "write_public";
    assert Name(ReadRelationships) == "read_relationships";
    assert Name(WriteRelationships) == "write_relationships";
  }

  /** As many scopes as flags, none of them twice. */
  lemma ResolvedScopesCount(s: Scope)
    ensures |ResolvedScopes(s)| == CountGranted(s)
    ensures forall i, j :: 0 <= i < j < |ResolvedScopes(s)| ==> ResolvedScopes(s)[i] != ResolvedScopes(s)[j]
  {
    var sel := Select(s, EmissionOrder);
    SelectInRequestOrder(s);
    assert |sel| == CountGranted(s);
    assert StrictlyRanked(EmissionOrder);
    SelectPreservesRanked(s, EmissionOrder);
    forall i, j | 0 <= i < j < |sel| ensures ResolvedScopes(s)[i] != ResolvedScopes(s)[j] {
      NameInjective(sel[i], sel[j]);
    }
  }

  /** The scopes come in request order: a subsequence of the four names, in that order. */
  lemma ResolvedScopesInRequestOrder(s: Scope)
    ensures IsSubsequence(ResolvedScopes(s), ["read_public", "read_relationships", "write_public", "write_relationships"])
  {
    SelectIsSubsequence(s, EmissionOrder);
    NamesPreserveSubsequence(Select(s, EmissionOrder), EmissionOrder);
    assert Names(EmissionOrder) == ["read_public", "read_relationships", "write_public", "write_relationships"];
  }

  /**
   The resolved list is the only list of permissions in request order whose members are
   exactly the granted ones: the four guarded appends compute no other order.
   */
  lemma ResolvedScopesCharacterised(s: Scope, ps: seq<Permission>)
    requires StrictlyRanked(ps)
    requires forall p :: p in ps <==> Granted(s, p)
    ensures Names(ps) == ResolvedScopes(s)
  {
    var sel := Select(s, EmissionOrder);
    assert StrictlyRanked(EmissionOrder);
    SelectPreservesRanked(s, EmissionOrder);
    forall p ensures p in ps <==> p in sel {
      SelectMembers(s, EmissionOrder, p);
      assert EmissionOrder[Rank(p)] == p;
    }
    RankedUnique(ps, sel);
  }

  /** No scopes are requested exactly when no flag is set; in particular for the default. */
  lemma NoScopesIffNoFlags(s: Scope)
    ensures ResolvedScopes(s) == [] <==> CountGranted(s) == 0
    ensures ResolvedScopes(DefaultScope()) == []
  {
    ResolvedScopesCount(s);
    ResolvedScopesCount(DefaultScope());
  }

  /** Request order is not declaration order: with every flag set the two differ. */
  lemma RequestOrderIsNotDeclarationOrder()
    ensures ResolvedScopes(Scope(true, true, true, true)) != Names(DeclarationOrder)
    ensures ResolvedScopes(Scope(true, true, true, true))
      == ["read_public", "read_relationships", "write_public", "write_relationships"]
  {
  }
}
