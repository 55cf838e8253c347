// The API-0007 reference document: JSON values, stable versions, accepted projections,
// and the parser that decides which documents open a migration window.
module Reference {
  import opened Common

  /** A parsed JSON value. A scalar that is neither null nor a string matters to the checker
      only through its Python text and its truth value. */
  datatype Json =
    | Null
    | Str(text: string)
    | Scalar(repr: string, truthy: bool)
    | Arr(items: seq<Json>)
    | Obj(members: map<string, Json>)

  predicate Truthy(j: Json) {
    match j
    case Null => false
    case Str(t) => t != ""
    case Scalar(_, truthy) => truthy
    case Arr(items) => items != []
    case Obj(members) => members != map[]
  }

  /** Python's `str(value)`; a list or an object never reads as a version or a module name. */
  function PyText(j: Json): string {
    match j
    case Null => "None"
    case Str(t) => t
    case Scalar(repr, _) => repr
    case Arr(_) => "[...]"
    case Obj(_) => "{...}"
  }

  // ----- stable versions -----

  datatype Version = Version(major: nat, minor: nat, patch: nat)

  predicate Before(a: Version, b: Version) {
    a.major < b.major
    || (a.major == b.major && (a.minor < b.minor || (a.minor == b.minor && a.patch < b.patch)))
  }

  /** Three-way comparison of version triples, as Python compares tuples. */
  function Cmp(a: Version, b: Version): int {
    if Before(b, a) then 1 else if Before(a, b) then -1 else 0
  }

  /** A number whose minor and patch digits, in a large enough base, follow its major ones. */
  function Weight(v: Version, base: nat): nat { (v.major * base + v.minor) * base + v.patch }

  /** Versions are ordered as the numbers their parts are the digits of. */
  lemma BeforeByWeight(a: Version, b: Version, base: nat)
    requires a.minor < base && a.patch < base && b.minor < base && b.patch < base
    ensures Before(a, b) <==> Weight(a, base) < Weight(b, base)
  {
    var m, n := a.major * base + a.minor, b.major * base + b.minor;
    DigitsOrder(a.major, a.minor, b.major, b.minor, base);
    DigitsOrder(m, a.patch, n, b.patch, base);
  }

  lemma DigitsOrder(x: nat, c: nat, y: nat, e: nat, base: nat)
    requires c < base && e < base
    ensures x * base + c < y * base + e <==> x < y || (x == y && c < e)
    ensures x * base + c == y * base + e <==> x == y && c == e
  {
    if x < y {
      Multiples(x, y, base);
    } else if y < x {
      Multiples(y, x, base);
    }
  }

  lemma {:induction false} Multiples(x: nat, y: nat, base: nat)
    requires x < y
    ensures x * base + base <= y * base
    decreases y
  {
    assert y * base == (y - 1) * base + base;
    if x < y - 1 {
      Multiples(x, y - 1, base);
    }
  }

  predicate IsDigit(c: char) { '0' <= c <= '9' }

  predicate Digits(s: string) { forall i :: 0 <= i < |s| ==> IsDigit(s[i]) }

  function Number(s: string): nat
    requires Digits(s)
  {
    if s == "" then 0 else 10 * Number(s[..|s| - 1]) + (s[|s| - 1] - '0') as nat
  }

  /** End of the maximal digit run of `s` that starts at `i`. */
  function DigitRun(s: string, i: nat): (e: nat)
    requires i <= |s|
    ensures i <= e <= |s| && Digits(s[i..e])
    ensures e < |s| ==> !IsDigit(s[e])
    decreases |s| - i
  {
    if i < |s| && IsDigit(s[i]) then
      var e := DigitRun(s, i + 1);
      assert s[i..e] == [s[i]] + s[i + 1..e];
      e
    else i
  }

  /** The triple of a `vX.Y.Z` tag. As in the original pattern, leading zeros are allowed and one
      newline may follow the tag. */
  function StableVersion(s: string): Option<Version> {
    if |s| == 0 || s[0] != 'v' then None
    else
      var a := DigitRun(s, 1);
      if a == 1 || a == |s| || s[a] != '.' then None
      else
        var b := DigitRun(s, a + 1);
        if b == a + 1 || b == |s| || s[b] != '.' then None
        else
          var c := DigitRun(s, b + 1);
          if c == b + 1 || !(c == |s| || (c + 1 == |s| && s[c] == '\n')) then None
          else Some(Version(Number(s[1..a]), Number(s[a + 1..b]), Number(s[b + 1..c])))
  }

  lemma DigitRunEnd(s: string, i: nat, e: nat)
    requires i <= e <= |s| && Digits(s[i..e]) && (e < |s| ==> !IsDigit(s[e]))
    ensures DigitRun(s, i) == e
    decreases e - i
  {
    if i < e {
      assert s[i] == s[i..e][0];
      assert s[i + 1..e] == s[i..e][1..];
      DigitRunEnd(s, i + 1, e);
    }
  }

  lemma StableVersionAt(s: string, i: nat, j: nat, k: nat)
    requires 1 < i && i + 1 < j && j + 1 < k <= |s| && s[0] == 'v' && s[i] == '.' && s[j] == '.'
    requires Digits(s[1..i]) && Digits(s[i + 1..j]) && Digits(s[j + 1..k])
    requires k == |s| || (k + 1 == |s| && s[k] == '\n')
    ensures StableVersion(s)
            == Some(Version(Number(s[1..i]), Number(s[i + 1..j]), Number(s[j + 1..k])))
  {
    DigitRunEnd(s, 1, i);
    DigitRunEnd(s, i + 1, j);
    DigitRunEnd(s, j + 1, k);
    hide Digits, Number, DigitRun;
  }

  /** `s` is the tag `va.b.c`; one newline may follow it. */
  predicate IsTag(s: string, a: string, b: string, c: string) {
    && Digits(a) && Digits(b) && Digits(c) && a != "" && b != "" && c != ""
    && (s == Tag(a, b, c) || s == Tag(a, b, c) + "\n")
  }

  function Tag(a: string, b: string, c: string): string { "v" + a + "." + b + "." + c }

  lemma TagParts(s: string, a: string, b: string, c: string)
    requires s == Tag(a, b, c) || s == Tag(a, b, c) + "\n"
    ensures var i, j, k := 1 + |a|, 2 + |a| + |b|, 3 + |a| + |b| + |c|;
            && k <= |s| && s[0] == 'v' && s[i] == '.' && s[j] == '.'
            && s[1..i] == a && s[i + 1..j] == b && s[j + 1..k] == c
            && (k == |s| || (k + 1 == |s| && s[k] == '\n'))
  {
  }

  lemma PartsOfTag(s: string, i: nat, j: nat, k: nat)
    requires 1 <= i < j < k <= |s| && s[0] == 'v' && s[i] == '.' && s[j] == '.'
    requires k == |s| || (k + 1 == |s| && s[k] == '\n')
    ensures var tag := Tag(s[1..i], s[i + 1..j], s[j + 1..k]); s == tag || s == tag + "\n"
  {
    var tag := Tag(s[1..i], s[i + 1..j], s[j + 1..k]);
    assert |tag| == k && tag == s[..k];
    assert k < |s| ==> s == s[..k] + [s[k]];
    assert k == |s| ==> s == s[..k];
  }

  lemma StableVersionReadsTag(s: string, a: string, b: string, c: string)
    requires IsTag(s, a, b, c)
    ensures StableVersion(s) == Some(Version(Number(a), Number(b), Number(c)))
  {
    hide StableVersion, Number, Digits, Tag;
    TagParts(s, a, b, c);
    StableVersionAt(s, 1 + |a|, 2 + |a| + |b|, 3 + |a| + |b| + |c|);
  }

  lemma StableVersionIsTag(s: string)
    requires StableVersion(s).Some?
    ensures exists a, b, c :: IsTag(s, a, b, c)
  {
    var i := DigitRun(s, 1);
    var j := DigitRun(s, i + 1);
    var k := DigitRun(s, j + 1);
    assert Digits(s[1..i]) && Digits(s[i + 1..j]) && Digits(s[j + 1..k]);
    hide DigitRun, Digits, Tag;
    PartsOfTag(s, i, j, k);
    assert IsTag(s, s[1..i], s[i + 1..j], s[j + 1..k]);
  }

  // Numbers in decimal writing.

  function DecimalDigit(n: nat): char
    requires n < 10
  {
    "0123456789"[n]
  }

  /** The decimal writing of a number. */
  function Decimal(n: nat): (s: string)
    ensures s != ""
  {
    if n < 10 then [DecimalDigit(n)] else Decimal(n / 10) + [DecimalDigit(n % 10)]
  }

  function Zeros(z: nat): (s: string)
    ensures |s| == z
  {
    if z == 0 then "" else ['0'] + Zeros(z - 1)
  }

  /** The text is the decimal writing of the number, perhaps after zeros. */
  ghost predicate Numeral(s: string, n: nat) { exists z: nat :: s == Zeros(z) + Decimal(n) }

  lemma NumberAppends(s: string, d: nat)
    requires Digits(s) && d < 10
    ensures Digits(s + [DecimalDigit(d)]) && Number(s + [DecimalDigit(d)]) == 10 * Number(s) + d
  {
    var t := s + [DecimalDigit(d)];
    assert t[..|t| - 1] == s;
    DigitReads(d);
  }

  lemma DigitReads(d: nat)
    requires d < 10
    ensures IsDigit(DecimalDigit(d)) && (DecimalDigit(d) - '0') as nat == d
  {
  }

  lemma {:induction false} NumberZeros(z: nat)
    ensures Digits(Zeros(z)) && Number(Zeros(z)) == 0
  {
    if z > 0 {
      NumberZeros(z - 1);
      ZerosAppend(z - 1);
      NumberAppends(Zeros(z - 1), 0);
    } else {
      assert Number("") == 0;
    }
  }

  lemma {:induction false} ZerosAppend(z: nat)
    ensures Zeros(z + 1) == Zeros(z) + ['0']
  {
    if z > 0 {
      ZerosAppend(z - 1);
      assert Zeros(z + 1) == ['0'] + (Zeros(z - 1) + ['0']);
    }
  }

  lemma {:induction false} NumberReadsDecimal(z: nat, n: nat)
    ensures Digits(Zeros(z) + Decimal(n)) && Number(Zeros(z) + Decimal(n)) == n
    decreases n
  {
    hide Number, Digits, DecimalDigit, Zeros;
    DecimalUnfolds(n);
    if n < 10 {
      NumberZeros(z);
      NumberAppends(Zeros(z), n);
    } else {
      NumberReadsDecimal(z, n / 10);
      NumberAppends(Zeros(z) + Decimal(n / 10), n % 10);
      assert Zeros(z) + Decimal(n) == Zeros(z) + Decimal(n / 10) + [DecimalDigit(n % 10)];
    }
  }

  lemma DecimalUnfolds(n: nat)
    ensures Decimal(n) == if n < 10 then [DecimalDigit(n)] else Decimal(n / 10) + [DecimalDigit(n % 10)]
  {
  }

  lemma {:induction false} DigitsAreNumeral(s: string)
    requires Digits(s) && s != ""
    ensures Numeral(s, Number(s))
    decreases |s|
  {
    var p, c := s[..|s| - 1], s[|s| - 1];
    var d := (c - '0') as nat;
    assert Digits(p) && IsDigit(c);
    hide *;
    DigitWrites(c);
    NumberAppends(p, d);
    assert s == p + [DecimalDigit(d)];
    if p == "" {
      OneDigit(d);
    } else {
      DigitsAreNumeral(p);
      NumeralAppends(p, Number(p), d);
    }
  }

  lemma OneDigit(d: nat)
    requires d < 10
    ensures Digits("") && Number("") == 0 && Numeral("" + [DecimalDigit(d)], d)
  {
    assert "" + [DecimalDigit(d)] == Zeros(0) + Decimal(d);
  }

  lemma DigitWrites(c: char)
    requires IsDigit(c)
    ensures (c - '0') as nat < 10 && DecimalDigit((c - '0') as nat) == c
  {
  }

  lemma NumeralAppends(p: string, m: nat, d: nat)
    requires d < 10 && Numeral(p, m)
    ensures Numeral(p + [DecimalDigit(d)], 10 * m + d)
  {
    var z: nat :| p == Zeros(z) + Decimal(m);
    if m == 0 {
      ZeroAppends(z, d);
    } else {
      DecimalAppends(m, d);
      hide *;
      Rejoin(Zeros(z), Decimal(m), [DecimalDigit(d)]);
      ItIsNumeral(p + [DecimalDigit(d)], z, 10 * m + d);
    }
  }

  lemma Rejoin(a: string, b: string, c: string)
    ensures a + b + c == a + (b + c)
  {
  }

  lemma ItIsNumeral(s: string, z: nat, n: nat)
    requires s == Zeros(z) + Decimal(n)
    ensures Numeral(s, n)
  {
  }

  lemma ZeroAppends(z: nat, d: nat)
    requires d < 10
    ensures Numeral(Zeros(z) + Decimal(0) + [DecimalDigit(d)], d)
  {
    ZerosAppend(z);
    assert Decimal(0) == ['0'];
    assert Decimal(d) == [DecimalDigit(d)];
    hide Decimal, Zeros;
    assert Zeros(z) + Decimal(0) + [DecimalDigit(d)] == Zeros(z + 1) + Decimal(d);
  }

  lemma DecimalAppends(m: nat, d: nat)
    requires 0 < m && d < 10
    ensures Decimal(10 * m + d) == Decimal(m) + [DecimalDigit(d)]
  {
    DecimalUnfolds(10 * m + d);
    assert (10 * m + d) / 10 == m && (10 * m + d) % 10 == d;
    hide Decimal;
  }

  /** Digits are read as the number they write in base ten, leading zeros aside. */
  lemma NumberReadsExactly(s: string, n: nat)
    ensures Digits(s) && s != "" && Number(s) == n <==> Numeral(s, n)
  {
    hide Number, Digits, Decimal, Zeros;
    if Digits(s) && s != "" {
      DigitsAreNumeral(s);
    }
    if Numeral(s, n) {
      var z: nat :| s == Zeros(z) + Decimal(n);
      NumberReadsDecimal(z, n);
    }
  }

  /** `s` is the tag `va.b.c` whose parts write the triple; one newline may follow it. */
  ghost predicate Spells(s: string, v: Version, a: string, b: string, c: string) {
    && Numeral(a, v.major) && Numeral(b, v.minor) && Numeral(c, v.patch)
    && (s == Tag(a, b, c) || s == Tag(a, b, c) + "\n")
  }

  lemma SpelledIsRead(s: string, v: Version, a: string, b: string, c: string)
    requires IsTag(s, a, b, c) || Spells(s, v, a, b, c)
    ensures StableVersion(s) == Some(v) <==> Spells(s, v, a, b, c)
  {
    hide StableVersion, Tag, Numeral, Digits, Number;
    NumberReadsExactly(a, v.major);
    NumberReadsExactly(b, v.minor);
    NumberReadsExactly(c, v.patch);
    StableVersionReadsTag(s, a, b, c);
  }

  /** A text is read as a triple exactly when it is a tag whose parts write the triple in decimal,
      whatever leading zeros they carry. */
  lemma StableVersionReadsExactly(s: string, v: Version)
    ensures StableVersion(s) == Some(v)
            <==> exists a, b, c :: Spells(s, v, a, b, c)
  {
    hide *;
    if StableVersion(s).Some? {
      StableVersionIsTag(s);
      var a, b, c :| IsTag(s, a, b, c);
      SpelledIsRead(s, v, a, b, c);
    }
    if a, b, c :| Spells(s, v, a, b, c) {
      SpelledIsRead(s, v, a, b, c);
    }
  }

  // ----- projections and windows -----

  const CONTRACTS_MODULE := "github.com/coderaxis/platform-contracts-go"
  const PROJECTOR_MODULE := "github.com/coderaxis/platform-shared-go"
  const SET_KEYS: set<string> := {"_comment", "components", "source"}
  const EXTRA_KEYS: set<string> := {"next", "previous"}

  /** `members.get(key) or fallback`, rendered as text. */
  function TextOr(members: map<string, Json>, key: string, fallback: string): string {
    if key in members && Truthy(members[key]) then PyText(members[key]) else fallback
  }

  datatype Projector = Projector(module_: string, version: string)

  /** `source.projector` is absent, null, or an object that names a version. */
  predicate ProjectorWellFormed(source: map<string, Json>) {
    "projector" in source && source["projector"] != Null ==>
      var p := source["projector"];
      p.Obj? && "version" in p.members && Truthy(p.members["version"])
  }

  /** One accepted set without its role: everything its identity compares. */
  datatype Projection = Projection(components: map<string, Json>, source: map<string, Json>) {
    function Module(): string { TextOr(source, "module", CONTRACTS_MODULE) }

    function Version(): string { TextOr(source, "version", "unknown") }

    function Recorded(): Option<Projector> {
      if "projector" in source && source["projector"].Obj? && ProjectorWellFormed(source) then
        var p := source["projector"].members;
        Some(Projector(TextOr(p, "module", PROJECTOR_MODULE), PyText(p["version"])))
      else None
    }

    /** What any accepted set satisfies on its own. */
    predicate Valid() { components != map[] && ProjectorWellFormed(source) }
  }

  /** What the members of a set's source are read as: text as it is, a printed number as it prints,
      nothing or an empty value as the default. */
  lemma SourceIsRead(p: Projection, text: string)
    requires text != ""
    ensures "version" in p.source && p.source["version"] in {Str(text), Scalar(text, true)} ==> p.Version() == text
    ensures "version" !in p.source || p.source["version"] in {Null, Str(""), Scalar(text, false), Arr([]), Obj(map[])} ==>
              p.Version() == "unknown"
    ensures "module" in p.source && p.source["module"] in {Str(text), Scalar(text, true)} ==> p.Module() == text
    ensures "module" !in p.source || p.source["module"] in {Null, Str(""), Scalar(text, false), Arr([]), Obj(map[])} ==>
              p.Module() == "github.com/coderaxis/platform-contracts-go"
  {
  }

  /** The projector a set records: none when the member is absent or null, otherwise its version and
      its module or the default one. */
  lemma ProjectorIsRead(p: Projection, text: string)
    requires text != "" && ProjectorWellFormed(p.source)
    ensures p.Recorded().None? <==> "projector" !in p.source || p.source["projector"] == Null
    ensures p.Recorded().Some? ==>
              var members := p.source["projector"].members;
              && (members["version"] in {Str(text), Scalar(text, true)} ==> p.Recorded().value.version == text)
              && ("module" in members && members["module"] == Str(text) ==> p.Recorded().value.module_ == text)
              && ("module" !in members || members["module"] in {Null, Str("")} ==>
                    p.Recorded().value.module_ == "github.com/coderaxis/platform-shared-go")
  {
  }

  /** A set is refused whose projector is neither null nor an object that names a version. */
  lemma MalformedProjectorIsRefused(isCurrent: bool, members: map<string, Json>, source: map<string, Json>, text: string)
    requires "source" in members && members["source"] == Obj(source) && "projector" in source
    requires var j := source["projector"];
             j.Str? || j.Scalar? || j.Arr?
             || (j.Obj? && ("version" in j.members ==>
                              j.members["version"] in {Null, Str(""), Scalar(text, false), Arr([]), Obj(map[])}))
    ensures ParseSet(isCurrent, Obj(members)).Err?
  {
  }

  /** The accepted sets of one document. The constructor is the set of roles. */
  datatype Window =
    | Alone(current: Projection)
    | WithNext(current: Projection, next: Projection)
    | WithPrevious(current: Projection, previous: Projection)
  {
    predicate Valid() {
      match this
      case Alone(c) => c.Valid()
      case WithNext(c, n) => c.Valid() && n.Valid() && Comparable(c, n) && Newer(n, c)
      case WithPrevious(c, p) => c.Valid() && p.Valid() && Comparable(c, p) && Newer(c, p)
    }
  }

  // ----- the order on vintages -----

  /** The conditions on two accepted sets that do not look at their direction. */
  predicate Comparable(a: Projection, b: Projection) {
    && a.Module() == b.Module()
    && StableVersion(a.Version()).Some? && StableVersion(b.Version()).Some?
    && (a.Recorded().Some? ==> StableVersion(a.Recorded().value.version).Some?)
    && (b.Recorded().Some? ==> StableVersion(b.Recorded().value.version).Some?)
    && (a.Recorded().Some? && b.Recorded().Some? ==>
          a.Recorded().value.module_ == b.Recorded().value.module_)
    && a.components != b.components
  }

  /** A vintage is the pair of a contracts release and, when recorded, a projector release. */
  datatype Vintage = Vintage(contracts: Version, projector: Option<Version>)

  function VintageOf(p: Projection): Vintage
    requires StableVersion(p.Version()).Some?
    requires p.Recorded().Some? ==> StableVersion(p.Recorded().value.version).Some?
  {
    Vintage(StableVersion(p.Version()).value,
            if p.Recorded().Some? then StableVersion(p.Recorded().value.version) else None)
  }

  /** `a` is a newer vintage than `b`: a newer contracts release whose projector, if both
      record one, does not go back; or the same contracts release and a newer projector. */
  predicate NewerVintage(a: Vintage, b: Vintage) {
    var bothRecorded := a.projector.Some? && b.projector.Some?;
    || (Before(b.contracts, a.contracts)
        && (bothRecorded ==> !Before(a.projector.value, b.projector.value)))
    || (a.contracts == b.contracts
        && bothRecorded && Before(b.projector.value, a.projector.value))
  }

  predicate Newer(a: Projection, b: Projection)
    requires Comparable(a, b)
  {
    NewerVintage(VintageOf(a), VintageOf(b))
  }

  lemma NewerIsAsymmetric(a: Vintage, b: Vintage)
    ensures NewerVintage(a, b) ==> !NewerVintage(b, a) && a != b
  {
  }

  /** Two steps forward are one step forward, except across a middle vintage that records no
      projector while the outer two record projectors that moved back. */
  lemma NewerIsTransitiveExactly(a: Vintage, b: Vintage, c: Vintage)
    requires NewerVintage(a, b) && NewerVintage(b, c)
    ensures NewerVintage(a, c)
            <==> !(b.projector.None? && a.projector.Some? && c.projector.Some?
                   && Before(a.projector.value, c.projector.value))
  {
    assert Before(c.contracts, a.contracts) || a.contracts == c.contracts;
  }

  lemma NewerIsNotTransitiveAcrossUnrecorded()
    ensures exists a, b, c :: NewerVintage(a, b) && NewerVintage(b, c) && !NewerVintage(a, c)
  {
    var a := Vintage(Version(3, 0, 0), Some(Version(1, 0, 0)));
    var b := Vintage(Version(2, 0, 0), None);
    var c := Vintage(Version(1, 0, 0), Some(Version(2, 0, 0)));
    assert NewerVintage(a, b) && NewerVintage(b, c) && !NewerVintage(a, c);
  }

  // ----- the parser -----

  datatype Refusal =
    | NotAnObject
    | UnknownMember
    | SetNotAnObject
    | UnknownSetMember
    | NoComponents
    | MalformedProjector
    | BothExtras
    | OtherModule
    | NotStable
    | ProjectorNotStable
    | OtherProjectorModule
    | NotInDirection
    | OrderedByProjectorOnly
    | ProjectorAgainstDirection
    | SameComponents

  function ParseSet(isCurrent: bool, body: Json): Result<Projection, Refusal> {
    if !body.Obj? then Err(SetNotAnObject)
    else if !isCurrent && !(body.members.Keys <= SET_KEYS) then Err(UnknownSetMember)
    else if !("components" in body.members && body.members["components"].Obj?
              && body.members["components"].members != map[]) then Err(NoComponents)
    else
      var source := if "source" in body.members && body.members["source"].Obj?
                    then body.members["source"].members else map[];
      if !ProjectorWellFormed(source) then Err(MalformedProjector)
      else Ok(Projection(body.members["components"].members, source))
  }

  /** The direction tests on the two vintages, in the order the parser makes them. */
  function OrderRefusal(current: Vintage, extra: Vintage, isNext: bool): Option<Refusal> {
    var want := if isNext then 1 else -1;
    var contracts := Cmp(extra.contracts, current.contracts);
    var projector :=
      if current.projector.None? || extra.projector.None? then None
      else Some(Cmp(extra.projector.value, current.projector.value));
    if contracts == -want || (contracts == 0 && (projector == Some(0) || projector == Some(-want)))
    then Some(NotInDirection)
    else if contracts == 0 && projector == None then Some(OrderedByProjectorOnly)
    else if projector == Some(-want) then Some(ProjectorAgainstDirection)
    else None
  }

  /** The parser's ordering tests are exactly the order on vintages, read in the direction
      the role names. */
  lemma OrderAcceptedIsNewer(current: Vintage, extra: Vintage, isNext: bool)
    ensures OrderRefusal(current, extra, isNext).None?
            <==> if isNext then NewerVintage(extra, current) else NewerVintage(current, extra)
  {
    CmpReads(extra.contracts, current.contracts);
    if current.projector.Some? && extra.projector.Some? {
      CmpReads(extra.projector.value, current.projector.value);
    }
  }

  /** Why `extra` may not stand beside `current` on the side its role names. */
  function PairRefusal(current: Projection, extra: Projection, isNext: bool): Option<Refusal> {
    if extra.Module() != current.Module() then Some(OtherModule)
    else
      var cv, ev := StableVersion(current.Version()), StableVersion(extra.Version());
      if cv.None? || ev.None? then Some(NotStable)
      else
        var cp, ep := current.Recorded(), extra.Recorded();
        if cp.Some? && StableVersion(cp.value.version).None? then Some(ProjectorNotStable)
        else if ep.Some? && StableVersion(ep.value.version).None? then Some(ProjectorNotStable)
        else if cp.Some? && ep.Some? && cp.value.module_ != ep.value.module_ then
          Some(OtherProjectorModule)
        else
          var order := OrderRefusal(VintageOf(current), VintageOf(extra), isNext);
          if order.Some? then order
          else if extra.components == current.components then Some(SameComponents)
          else None
  }

  /** The second set of a document, beside its current set. */
  function ParseExtra(c: Projection, body: Json, isNext: bool): Result<Window, Refusal> {
    var extra := ParseSet(false, body);
    if extra.Err? then Err(extra.error)
    else
      var refusal := PairRefusal(c, extra.value, isNext);
      if refusal.Some? then Err(refusal.value)
      else Ok(if isNext then WithNext(c, extra.value) else WithPrevious(c, extra.value))
  }

  function ParseReference(doc: Json): Result<Window, Refusal> {
    if !doc.Obj? then Err(NotAnObject)
    else if !(doc.members.Keys <= SET_KEYS + EXTRA_KEYS) then Err(UnknownMember)
    else
      var current := ParseSet(true, doc);
      if current.Err? then Err(current.error)
      else if "next" !in doc.members && "previous" !in doc.members then Ok(Alone(current.value))
      else if "next" in doc.members && "previous" in doc.members then Err(BothExtras)
      else
        var isNext := "next" in doc.members;
        ParseExtra(current.value, doc.members[if isNext then "next" else "previous"], isNext)
  }

  /** A second set is accepted exactly when it is comparable and on the side its role names. */
  lemma PairAcceptedIsNewer(current: Projection, extra: Projection, isNext: bool)
    ensures PairRefusal(current, extra, isNext).None?
            <==> Comparable(current, extra)
                 && (if isNext then Newer(extra, current) else Newer(current, extra))
  {
    hide StableVersion, OrderRefusal, NewerVintage;
    if StableVersion(current.Version()).Some? && StableVersion(extra.Version()).Some?
       && (current.Recorded().Some? ==> StableVersion(current.Recorded().value.version).Some?)
       && (extra.Recorded().Some? ==> StableVersion(extra.Recorded().value.version).Some?)
    {
      OrderAcceptedIsNewer(VintageOf(current), VintageOf(extra), isNext);
    }
  }

  lemma CmpReads(a: Version, b: Version)
    ensures (Cmp(a, b) == 1 <==> Before(b, a)) && (Cmp(a, b) == -1 <==> Before(a, b))
            && (Cmp(a, b) == 0 <==> a == b)
  {
  }

  /** {current A, next B} is accepted exactly when {current B, previous A} is. */
  lemma PromotionKeepsOrder(a: Projection, b: Projection)
    ensures WithNext(a, b).Valid() <==> WithPrevious(b, a).Valid()
  {
  }

  /** A JSON object that spells a set, on its own or at the top level of a document. */
  predicate DescribesSet(members: map<string, Json>, p: Projection) {
    && "components" in members && members["components"] == Obj(p.components)
    && p.source == (if "source" in members && members["source"].Obj?
                    then members["source"].members else map[])
  }

  predicate DescribesExtra(body: Json, p: Projection) {
    body.Obj? && body.members.Keys <= SET_KEYS && DescribesSet(body.members, p)
  }

  /** A document that spells a window: known members only, at most one extra set. */
  predicate Describes(doc: Json, w: Window) {
    && doc.Obj? && doc.members.Keys <= SET_KEYS + EXTRA_KEYS
    && DescribesSet(doc.members, w.current)
    && ("next" in doc.members <==> w.WithNext?)
    && ("previous" in doc.members <==> w.WithPrevious?)
    && (w.WithNext? ==> DescribesExtra(doc.members["next"], w.next))
    && (w.WithPrevious? ==> DescribesExtra(doc.members["previous"], w.previous))
  }

  lemma ParseSetAcceptsExactly(isCurrent: bool, body: Json, p: Projection)
    ensures ParseSet(isCurrent, body) == Ok(p)
            <==> body.Obj? && (isCurrent || body.members.Keys <= SET_KEYS)
                 && DescribesSet(body.members, p) && p.Valid()
  {
  }

  /** A second set is read exactly when it is spelled, well formed and in order. */
  lemma ExtraAcceptsExactly(c: Projection, body: Json, isNext: bool, w: Window)
    requires c.Valid()
    ensures ParseExtra(c, body, isNext) == Ok(w)
            <==> w.current == c && w.Valid()
                 && (if isNext then w.WithNext? && DescribesExtra(body, w.next)
                     else w.WithPrevious? && DescribesExtra(body, w.previous))
  {
    hide ParseSet, PairRefusal, DescribesSet;
    forall p: Projection
      ensures ParseSet(false, body) == Ok(p) <==> DescribesExtra(body, p) && p.Valid()
      ensures PairRefusal(c, p, isNext).None?
              <==> Comparable(c, p) && (if isNext then Newer(p, c) else Newer(c, p))
    {
      ParseSetAcceptsExactly(false, body, p);
      PairAcceptedIsNewer(c, p, isNext);
    }
  }

  /** The parser accepts exactly the documents that describe a valid window, and reads that
      window from them. */
  lemma ParseAcceptsExactly(doc: Json, w: Window)
    ensures ParseReference(doc) == Ok(w) <==> Describes(doc, w) && w.Valid()
  {
    ParseSetAcceptsExactly(true, doc, w.current);
    hide ParseSet, DescribesSet, DescribesExtra, ParseExtra, Projection.Valid, Comparable, Newer;
    if doc.Obj? && doc.members.Keys <= SET_KEYS + EXTRA_KEYS && ParseSet(true, doc).Ok? {
      var c := ParseSet(true, doc).value;
      ParseSetAcceptsExactly(true, doc, c);
      if "next" in doc.members {
        ExtraAcceptsExactly(c, doc.members["next"], true, w);
      } else if "previous" in doc.members {
        ExtraAcceptsExactly(c, doc.members["previous"], false, w);
      }
    }
  }
}
