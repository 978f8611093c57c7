/** The data behind `#[derive(DjogiEnum)]`: wire strings, the collision check, the emitted encode and decode arms,
    and the name fold used for the generated helpers. */
module EnumCodec {
  import opened Outcomes
  import opened Concatenation
  import opened CaseConversion

  datatype NameOverride = NoOverride | Override(name: string) | MalformedAttribute

  datatype Variant = Variant(ident: string, isUnit: bool, attribute: NameOverride)

  datatype ExpandError =
    | NoVariants
    | NotUnit(ident: string)
    | BadAttribute(ident: string)
    | Collision(ident: string, wire: string)

  /** An override takes precedence over the container's rename rule. */
  function WireOf(rule: RenameAll, v: Variant): string {
    match v.attribute
    case Override(name) => name
    case _ => Apply(rule, v.ident)
  }

  // ---------------------------------------------------------------------------------------------
  // Collecting the wire strings
  // ---------------------------------------------------------------------------------------------

  ghost predicate Usable(v: Variant) {
    v.isUnit && !v.attribute.MalformedAttribute?
  }

  function Wires(rule: RenameAll, vs: seq<Variant>): (r: seq<string>)
    ensures |r| == |vs| && forall i :: 0 <= i < |vs| ==> r[i] == WireOf(rule, vs[i])
  {
    seq(|vs|, i requires 0 <= i < |vs| => WireOf(rule, vs[i]))
  }

  /** What is wrong with variant k, given the variants before it. */
  ghost predicate OffendsWith(rule: RenameAll, vs: seq<Variant>, k: nat, e: ExpandError)
    requires k < |vs|
  {
    var v := vs[k];
    if !v.isUnit then e == NotUnit(v.ident)
    else if v.attribute.MalformedAttribute? then e == BadAttribute(v.ident)
    else e == Collision(v.ident, WireOf(rule, v)) && exists j :: 0 <= j < k && WireOf(rule, vs[j]) == WireOf(rule, v)
  }

  ghost predicate Accepted(rule: RenameAll, vs: seq<Variant>) {
    vs != [] && (forall k :: 0 <= k < |vs| ==> Usable(vs[k])) && Distinct(Wires(rule, vs))
  }

  /** The loop over the variants: accepted exactly when there are variants, all are plain unit variants, and all
      wire strings differ; otherwise the error is about the first variant that breaks this. */
  method CollectWires(rule: RenameAll, vs: seq<Variant>) returns (r: Result<seq<string>, ExpandError>)
    ensures r.Ok? <==> Accepted(rule, vs)
    ensures r.Ok? ==> r.value == Wires(rule, vs)
    ensures r.Ok? ==> forall i :: 0 <= i < |vs| ==>
      r.value[i] == match vs[i].attribute case Override(name) => name case _ => Apply(rule, vs[i].ident)
    ensures r.Err? ==>
      (vs == [] && r.error == NoVariants)
      || exists k :: 0 <= k < |vs| && OffendsWith(rule, vs, k, r.error) && (k == 0 || Accepted(rule, vs[..k]))
  {
    if vs == [] {
      return Err(NoVariants);
    }
    var seen: seq<string> := [];
    for k := 0 to |vs|
      invariant seen == Wires(rule, vs)[..k]
      invariant forall j :: 0 <= j < k ==> Usable(vs[j])
      invariant Distinct(seen)
    {
      var v := vs[k];
      assert Wires(rule, vs[..k]) == seen;
      if !v.isUnit {
        assert OffendsWith(rule, vs, k, NotUnit(v.ident));
        return Err(NotUnit(v.ident));
      }
      if v.attribute.MalformedAttribute? {
        assert OffendsWith(rule, vs, k, BadAttribute(v.ident));
        return Err(BadAttribute(v.ident));
      }
      var wire := WireOf(rule, v);
      if wire in seen {
        assert exists j :: 0 <= j < k && WireOf(rule, vs[j]) == wire by {
          var j :| 0 <= j < |seen| && seen[j] == wire;
          assert WireOf(rule, vs[j]) == wire;
        }
        assert !Distinct(Wires(rule, vs)) by {
          var j :| 0 <= j < k && WireOf(rule, vs[j]) == wire;
          assert Wires(rule, vs)[j] == Wires(rule, vs)[k];
        }
        assert OffendsWith(rule, vs, k, Collision(v.ident, wire));
        return Err(Collision(v.ident, wire));
      }
      seen := seen + [wire];
    }
    assert Wires(rule, vs)[..|vs|] == Wires(rule, vs);
    r := Ok(seen);
  }

  // ---------------------------------------------------------------------------------------------
  // The emitted match arms
  // ---------------------------------------------------------------------------------------------

  /** `ToSql`: the arm of the variant. A variant is its position in the declaration. */
  function Encode(wires: seq<string>, v: nat): string
    requires v < |wires|
  {
    wires[v]
  }

  /** `FromSql`: the arms are tried in declaration order from position `from` on. */
  function DecodeFrom(wires: seq<string>, s: string, from: nat): (r: Option<nat>)
    requires from <= |wires|
    ensures r.Some? ==> from <= r.value < |wires| && wires[r.value] == s
    ensures r.Some? ==> forall j :: from <= j < r.value ==> wires[j] != s
    ensures r.None? ==> forall j :: from <= j < |wires| ==> wires[j] != s
    decreases |wires| - from
  {
    if from == |wires| then None
    else if wires[from] == s then Some(from)
    else DecodeFrom(wires, s, from + 1)
  }

  function Decode(wires: seq<string>, s: string): Option<nat> {
    DecodeFrom(wires, s, 0)
  }

  /** Decoding never invents: what decodes to a variant is that variant's wire string, and only strings that are
      no variant's are rejected. */
  lemma DecodeIsSound(wires: seq<string>, s: string)
    ensures Decode(wires, s).Some? ==> Decode(wires, s).value < |wires| && Encode(wires, Decode(wires, s).value) == s
    ensures Decode(wires, s).None? <==> s !in wires
  {
  }

  /** Every variant survives the round trip exactly when the wire strings are pairwise distinct: the property that
      the collision check establishes is the one the codec needs. */
  lemma CodecRoundTripIffDistinct(wires: seq<string>)
    ensures (forall v: nat :: v < |wires| ==> Decode(wires, Encode(wires, v)) == Some(v)) <==> Distinct(wires)
  {
    if forall v: nat :: v < |wires| ==> Decode(wires, Encode(wires, v)) == Some(v) {
      forall i, j | 0 <= i < j < |wires| ensures wires[i] != wires[j] {
        assert Decode(wires, Encode(wires, i)) == Some(i);
        assert Decode(wires, Encode(wires, j)) == Some(j);
      }
    }
    if Distinct(wires) {
      forall v: nat | v < |wires| ensures Decode(wires, Encode(wires, v)) == Some(v) {
        var r := Decode(wires, Encode(wires, v));
        assert r.Some? && wires[r.value] == wires[v];
      }
    }
  }

  // ---------------------------------------------------------------------------------------------
  // The fold that names the helper functions
  // ---------------------------------------------------------------------------------------------

  /** One underscore before every capital but a leading one. */
  function FoldName(first: bool, s: string): string
    decreases |s|
  {
    if s == "" then ""
    else (if IsUpper(s[0]) && !first then "_" else "") + ([ToLower(s[0])] + FoldName(false, s[1..]))
  }

  function EnumNameSnake(name: string): string {
    FoldName(true, name)
  }

  predicate HasUnderscore(s: string) {
    '_' in s
  }

  lemma {:induction false} CapitaliseDropsUnderscores(up: bool, s: string)
    ensures !HasUnderscore(Capitalise(up, s))
    decreases |s|
  {
    if s != "" {
      CapitaliseDropsUnderscores(s[0] == '_', s[1..]);
    }
  }

  lemma {:induction false} FoldIsUndone(s: string)
    requires !HasUnderscore(s)
    ensures Capitalise(false, FoldName(false, s)) == s
  {
    if s != "" {
      FoldIsUndone(s[1..]);
      HeadAndTail(s);
      var rest := FoldName(false, s[1..]);
      assert s[0] != '_' && s[0] in s;
      DropHead(ToLower(s[0]), rest);
      NothingAdded([ToLower(s[0])] + rest);
      DropHead('_', [ToLower(s[0])] + rest);
    }
  }

  /** The fold has no capitals, differs from the name in small letters by underscores only, and has one for each
      capital that is not the first character. */
  lemma {:induction false} FoldShape(first: bool, s: string)
    ensures NoCapitals(FoldName(first, s))
    ensures WithoutUnderscores(FoldName(first, s)) == WithoutUnderscores(Lowercase(s))
    ensures |FoldName(first, s)| == |s| + if first && s != "" then CountUpper(s[1..]) else CountUpper(s)
    decreases |s|
  {
    if s != "" {
      hide Lowercase, WithoutUnderscores;
      var small, rest := [ToLower(s[0])], FoldName(false, s[1..]);
      FoldShape(false, s[1..]);
      NothingAdded(small + rest);
      LowercaseUnfolds(s);
      ErasureJoins(small, Lowercase(s[1..]));
      ErasureJoins(small, rest);
      ErasureJoins("_", small + rest);
      NoUnderscoreLeft();
      NothingAdded(WithoutUnderscores(small + rest));
    } else {
      assert Lowercase("") == "";
    }
  }

  /** So for an enum name: it starts with its first character in small, without an underscore before it. */
  lemma EnumNameShape(name: string)
    ensures var folded := EnumNameSnake(name);
      && NoCapitals(folded) && WithoutUnderscores(folded) == WithoutUnderscores(Lowercase(name))
      && (name != "" ==>
           |folded| == |name| + CountUpper(name[1..]) && folded[0] == ToLower(name[0]))
  {
    FoldShape(true, name);
  }

  lemma LowercaseUnfolds(s: string)
    requires s != ""
    ensures Lowercase(s) == [ToLower(s[0])] + Lowercase(s[1..])
  {
  }

  lemma NoUnderscoreLeft()
    ensures WithoutUnderscores("_") == ""
  {
  }

  /** `snake_to_pascal` undoes the fold exactly on the names without underscores that do not start with a
      lower-case letter: every conventional enum name. */
  lemma FoldUndoneIff(name: string)
    ensures SnakeToPascal(EnumNameSnake(name)) == name <==> !HasUnderscore(name) && (name == "" || !IsLower(name[0]))
  {
    var folded := EnumNameSnake(name);
    CapitaliseDropsUnderscores(true, folded);
    if name != "" && !HasUnderscore(name) {
      HeadAndTail(name);
      var rest := FoldName(false, name[1..]);
      assert name[0] != '_' && name[0] in name;
      FoldIsUndone(name[1..]);
      DropHead(ToLower(name[0]), rest);
      NothingAdded([ToLower(name[0])] + rest);
      assert SnakeToPascal(folded) == [ToUpper(ToLower(name[0]))] + name[1..];
      assert SnakeToPascal(folded)[0] == ToUpper(ToLower(name[0]));
    }
  }

  const HELPER_PREFIX := "__djogi_enum_bind_value_"

  /** So two different enum names of that kind never share a helper name. */
  lemma HelperNamesAreDistinct(a: string, b: string)
    requires !HasUnderscore(a) && (a == "" || !IsLower(a[0]))
    requires !HasUnderscore(b) && (b == "" || !IsLower(b[0]))
    requires HELPER_PREFIX + EnumNameSnake(a) == HELPER_PREFIX + EnumNameSnake(b)
    ensures a == b
  {
    SameHead(HELPER_PREFIX, EnumNameSnake(a), EnumNameSnake(b));
    FoldUndoneIff(a);
    FoldUndoneIff(b);
  }
}
