/**
 * The version value types: `IntVersion`, one Kotlin `Int`, and
 * `SemanticVersion`, three of them compared lexicographically. Both are data
 * classes, so equality is equality of the components; their `init` blocks
 * throw `IllegalArgumentException`, which is the `Fail` case of `Result`.
 */
module Versions {

  /** Kotlin's `Int`. */
  const IntMin: int := -0x8000_0000
  const IntMax: int := 0x7fff_ffff
  type Int32 = x: int | -0x8000_0000 <= x <= 0x7fff_ffff

  /** A constructor returns the value or throws from its `require`. */
  datatype Result<T> = Ok(value: T) | Fail(message: string)

  const NonNegativeMsg: string := "Version numbers must be non-negative."

  /** `Int.compareTo`: negative, zero or positive as `x` is below, equal to
      or above `y`. */
  function CompareInts(x: int, y: int): (c: int)
    ensures c == 0 <==> x == y
    ensures c < 0 <==> x < y
    ensures -1 <= c <= 1
  {
    if x < y then -1 else if x == y then 0 else 1
  }

  datatype IntVersion = IntVersion(value: Int32)

  /** `IntVersion(value)` of the multiplatform library, whose `init`
      requires a non-negative value. */
  function NewIntVersion(value: Int32): (r: Result<IntVersion>)
    ensures r.Ok? <==> value >= 0
    ensures r.Ok? ==> r.value.value == value
    ensures r.Fail? ==> r.message == NonNegativeMsg
  {
    if value >= 0 then Ok(IntVersion(value)) else Fail(NonNegativeMsg)
  }

  /** `IntVersion(value)` of the original module, which has no `init` block. */
  function NewLegacyIntVersion(value: Int32): Result<IntVersion>
  {
    Ok(IntVersion(value))
  }

  /** The original module builds every `Int`, negative ones included; the
      multiplatform library builds exactly the non-negative ones, and the
      two agree wherever both succeed. */
  lemma LegacyIntVersionAcceptsNegatives(value: Int32)
    ensures NewLegacyIntVersion(value).Ok? && NewLegacyIntVersion(value).value.value == value
    ensures NewIntVersion(value).Ok? <==> value >= 0
    ensures NewIntVersion(value).Ok? ==> NewIntVersion(value) == NewLegacyIntVersion(value)
  {
  }

  /** `IntVersion.compareTo`: the integer order of `value`; zero exactly
      for equal versions. */
  function IntVersionCompareTo(a: IntVersion, b: IntVersion): (c: int)
    ensures c < 0 <==> a.value < b.value
    ensures c > 0 <==> a.value > b.value
    ensures c == 0 <==> a == b
  {
    CompareInts(a.value, b.value)
  }

  datatype SemanticVersion = SemanticVersion(major: Int32, minor: Int32, patch: Int32)

  /** What the `init` block of `SemanticVersion` requires. */
  predicate NonNegative(v: SemanticVersion)
  {
    v.major >= 0 && v.minor >= 0 && v.patch >= 0
  }

  /** `SemanticVersion(major, minor, patch)`: fails unless all three
      components are non-negative. */
  function NewSemanticVersion(major: Int32, minor: Int32, patch: Int32): (r: Result<SemanticVersion>)
    ensures r.Ok? <==> major >= 0 && minor >= 0 && patch >= 0
    ensures r.Ok? ==> r.value.major == major && r.value.minor == minor && r.value.patch == patch
    ensures r.Ok? ==> NonNegative(r.value)
    ensures r.Fail? ==> r.message == NonNegativeMsg
  {
    if major >= 0 && minor >= 0 && patch >= 0 then Ok(SemanticVersion(major, minor, patch))
    else Fail(NonNegativeMsg)
  }

  /** `compareValuesBy(this, other, { it.major }, { it.minor }, { it.patch })`:
      the first non-zero comparison of the selected components. */
  function CompareTo(a: SemanticVersion, b: SemanticVersion): (c: int)
    ensures -1 <= c <= 1
    ensures c == 0 <==> a == b
  {
    var byMajor := CompareInts(a.major, b.major);
    if byMajor != 0 then byMajor
    else
      var byMinor := CompareInts(a.minor, b.minor);
      if byMinor != 0 then byMinor
      else CompareInts(a.patch, b.patch)
  }

  /** Lexicographic "less than" on (major, minor, patch). */
  predicate LexLess(a: SemanticVersion, b: SemanticVersion)
  {
    || a.major < b.major
    || (a.major == b.major && a.minor < b.minor)
    || (a.major == b.major && a.minor == b.minor && a.patch < b.patch)
  }

  /** `compareTo` is negative exactly for lexicographically smaller versions
      and positive exactly for lexicographically larger ones. */
  lemma CompareToIsLexicographic(a: SemanticVersion, b: SemanticVersion)
    ensures CompareTo(a, b) < 0 <==> LexLess(a, b)
    ensures CompareTo(a, b) > 0 <==> LexLess(b, a)
  {
  }

  /** The three components packed into one integer, 32 bits each, offset so
      that every `Int` component takes a non-negative field. */
  function Key(v: SemanticVersion): (k: int)
    ensures 0 <= k < 0x1_0000_0000_0000_0000_0000_0000
  {
    (v.major - IntMin) * 0x1_0000_0000_0000_0000 + (v.minor - IntMin) * 0x1_0000_0000 + (v.patch - IntMin)
  }

  /** A larger leading field outweighs everything below it. */
  lemma KeyOrdersByMajor(a: SemanticVersion, b: SemanticVersion)
    requires a.major < b.major
    ensures Key(a) < Key(b)
  {
    var low := (a.minor - IntMin) * 0x1_0000_0000 + (a.patch - IntMin);
    assert low < 0x1_0000_0000_0000_0000;
    assert (a.major - IntMin) * 0x1_0000_0000_0000_0000 + 0x1_0000_0000_0000_0000 <= (b.major - IntMin) * 0x1_0000_0000_0000_0000;
  }

  /** `compareTo` is the integer order of `Key`: the semantic order embeds
      in the integers, which is what lets the migrator key its registry by
      an integer version. */
  lemma {:induction false} CompareToIsKeyOrder(a: SemanticVersion, b: SemanticVersion)
    ensures CompareTo(a, b) == CompareInts(Key(a), Key(b))
  {
    if a.major < b.major {
      KeyOrdersByMajor(a, b);
    } else if b.major < a.major {
      KeyOrdersByMajor(b, a);
    }
  }

  /** Swapping the arguments flips the sign. */
  lemma CompareToAntisymmetric(a: SemanticVersion, b: SemanticVersion)
    ensures CompareTo(a, b) == -CompareTo(b, a)
  {
  }

  /** `compareTo` is transitive, both for "less than" and "at most". */
  lemma {:induction false} CompareToTransitive(a: SemanticVersion, b: SemanticVersion, c: SemanticVersion)
    ensures CompareTo(a, b) < 0 && CompareTo(b, c) < 0 ==> CompareTo(a, c) < 0
    ensures CompareTo(a, b) <= 0 && CompareTo(b, c) <= 0 ==> CompareTo(a, c) <= 0
  {
    CompareToIsKeyOrder(a, b);
    CompareToIsKeyOrder(b, c);
    CompareToIsKeyOrder(a, c);
  }

  /** The order is total: any two versions are equal or one is smaller. */
  lemma CompareToTotal(a: SemanticVersion, b: SemanticVersion)
    ensures a == b || CompareTo(a, b) < 0 || CompareTo(b, a) < 0
  {
  }
}
