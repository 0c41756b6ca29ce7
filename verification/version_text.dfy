/**
 * `SemanticVersion.toString` and `SemanticVersion.fromVersion`: rendering a
 * version as "major.minor.patch" and parsing one, two or three dot-separated
 * integers back. Kotlin's `isBlank`, `split(".")`, `toIntOrNull` and
 * `Int.toString` are written out on ASCII text.
 */
module VersionText {
  import opened Versions
  import Migrations

  const InvalidFormatMsg: string := "\"Invalid version format. Supported formats are [major.minor.patch] (ex. 1.2.3), [major.minor] (ex 1.4) or [major] (ex. 7)"

  /** `Char.isWhitespace` on ASCII: space, tab, line feed, vertical tab, form
      feed, carriage return and the four information separators. */
  predicate IsWhitespace(c: char)
  {
    c == ' ' || 9 <= c as int <= 13 || 28 <= c as int <= 31
  }

  /** `isBlank`: empty or whitespace only. */
  predicate IsBlank(s: string)
  {
    forall i :: 0 <= i < |s| ==> IsWhitespace(s[i])
  }

  predicate IsDigit(c: char)
  {
    '0' <= c <= '9'
  }

  predicate AllDigits(s: string)
  {
    forall i :: 0 <= i < |s| ==> IsDigit(s[i])
  }

  function DigitValue(c: char): nat
    requires IsDigit(c)
  {
    c as int - '0' as int
  }

  function DigitChar(d: nat): (c: char)
    requires d < 10
    ensures IsDigit(c) && DigitValue(c) == d
  {
    ('0' as int + d) as char
  }

  /** The number a string of decimal digits denotes, most significant first. */
  function DigitsValue(s: string): nat
    requires AllDigits(s)
    decreases |s|
  {
    if s == [] then 0 else DigitsValue(s[..|s| - 1]) * 10 + DigitValue(s[|s| - 1])
  }

  /** The text after an optional leading '+' or '-'. */
  function Unsigned(s: string): (d: string)
    requires s != []
    ensures |s| - 1 <= |d| <= |s| && d == s[|s| - |d|..]
  {
    if s[0] == '+' || s[0] == '-' then s[1..] else s
  }

  /** The value of a numeral: its digits' value, negated after a '-'. */
  function NumeralValue(s: string): int
    requires s != [] && AllDigits(Unsigned(s))
  {
    if s[0] == '-' then -(DigitsValue(Unsigned(s)) as int) else DigitsValue(Unsigned(s))
  }

  /** A numeral `toIntOrNull` accepts: an optional sign, then at least one
      decimal digit, denoting a value that fits an `Int`. */
  predicate IsIntNumeral(s: string)
  {
    s != [] && Unsigned(s) != [] && AllDigits(Unsigned(s)) && IntMin <= NumeralValue(s) <= IntMax
  }

  /** `String.toIntOrNull()`: an optional '+' or '-' and at least one decimal
      digit, whose value fits an `Int`; anything else gives null. */
  function ToIntOrNull(s: string): (r: Migrations.Option<Int32>)
    ensures r.Some? ==> s != [] && (s[0] == '+' || s[0] == '-' || IsDigit(s[0]))
    ensures r.Some? && r.value < 0 ==> s[0] == '-'
  {
    if s == [] then Migrations.None
    else
      var digits := if s[0] == '+' || s[0] == '-' then s[1..] else s;
      if digits == [] || !AllDigits(digits) then Migrations.None
      else
        var magnitude := DigitsValue(digits);
        var value := if s[0] == '-' then -(magnitude as int) else magnitude as int;
        if IntMin <= value <= IntMax then Migrations.Some(value) else Migrations.None
  }

  /** `toIntOrNull` reads exactly the numerals, and gives the value each
      denotes. */
  lemma ToIntOrNullReadsNumerals(s: string)
    ensures ToIntOrNull(s).Some? <==> IsIntNumeral(s)
    ensures ToIntOrNull(s).Some? ==> ToIntOrNull(s).value == NumeralValue(s)
  {
  }

  /** `Int.toString()` of a non-negative value: its decimal digits without
      leading zeros. */
  function NatToString(n: nat): (s: string)
    ensures s != [] && AllDigits(s) && DigitsValue(s) == n
    ensures |s| > 1 ==> s[0] != '0'
  {
    if n < 10 then
      var s := [DigitChar(n)];
      assert s[..0] == [];
      s
    else
      var prefix := NatToString(n / 10);
      var s := prefix + [DigitChar(n % 10)];
      assert s[..|s| - 1] == prefix;
      s
  }

  /** `Int.toString()`. */
  function IntToString(x: int): string
  {
    if x < 0 then "-" + NatToString(-x) else NatToString(x)
  }

  /** The text of an integer holds no dot and does not start with
      whitespace. */
  lemma IntToStringHasNoDot(x: int)
    ensures '.' !in IntToString(x) && IntToString(x) != [] && !IsWhitespace(IntToString(x)[0])
  {
    var d := NatToString(if x < 0 then -x else x);
    DigitsAreNoSeparator(d);
    assert IsDigit(d[0]);
  }

  /** `toString()`: "$major.$minor.$patch". The text is never blank, and it
      splits back into the texts of the three components. */
  function ToString(v: SemanticVersion): (s: string)
    ensures Split(s) == [IntToString(v.major), IntToString(v.minor), IntToString(v.patch)]
    ensures !IsBlank(s)
  {
    IntToStringHasNoDot(v.major);
    IntToStringHasNoDot(v.minor);
    IntToStringHasNoDot(v.patch);
    SplitThree(IntToString(v.major), IntToString(v.minor), IntToString(v.patch));
    var s := IntToString(v.major) + "." + IntToString(v.minor) + "." + IntToString(v.patch);
    assert s[0] == IntToString(v.major)[0];
    s
  }

  /** The parts joined back with '.' between them. */
  function Join(parts: seq<string>): string
    requires parts != []
  {
    if |parts| == 1 then parts[0] else parts[0] + "." + Join(parts[1..])
  }

  /** `split(".")`: the pieces between the dots, empty ones included, so a
      string with k dots has k + 1 parts. */
  function Split(s: string): (parts: seq<string>)
    ensures parts != []
    ensures forall i :: 0 <= i < |parts| ==> '.' !in parts[i]
    decreases |s|
  {
    if s == [] then [[]]
    else
      var rest := Split(s[1..]);
      if s[0] == '.' then [[]] + rest
      else [[s[0]] + rest[0]] + rest[1..]
  }

  /** Joining the parts with '.' gives back the split string. */
  lemma {:induction false} JoinSplit(s: string)
    ensures Join(Split(s)) == s
    decreases |s|
  {
    if s != [] {
      var rest := Split(s[1..]);
      JoinSplit(s[1..]);
      if s[0] == '.' {
        assert ([[]] + rest)[1..] == rest;
      } else {
        var parts := [[s[0]] + rest[0]] + rest[1..];
        if |rest| > 1 {
          assert parts[1..] == rest[1..];
        }
      }
    }
  }

  /** A string without a dot is a single part. */
  lemma {:induction false} SplitNoDot(a: string)
    requires '.' !in a
    ensures Split(a) == [a]
    decreases |a|
  {
    if a != [] {
      assert '.' !in a[1..] by {
        forall c | c in a[1..] ensures c in a { }
      }
      SplitNoDot(a[1..]);
      assert [a[0]] + a[1..] == a;
    }
  }

  /** The text before the first dot is the first part. */
  lemma {:induction false} SplitAtDot(a: string, b: string)
    requires '.' !in a
    ensures Split(a + "." + b) == [a] + Split(b)
    decreases |a|
  {
    var s := a + "." + b;
    if a == [] {
      assert s[1..] == b;
    } else {
      assert '.' !in a[1..] by {
        forall c | c in a[1..] ensures c in a { }
      }
      assert s[1..] == a[1..] + "." + b;
      SplitAtDot(a[1..], b);
      assert [a[0]] + a[1..] == a;
    }
  }

  /** Dot-free parts are given back by splitting their join. */
  lemma {:induction false} SplitJoin(parts: seq<string>)
    requires parts != []
    requires forall i :: 0 <= i < |parts| ==> '.' !in parts[i]
    ensures Split(Join(parts)) == parts
    decreases |parts|
  {
    if |parts| == 1 {
      SplitNoDot(parts[0]);
    } else {
      SplitJoin(parts[1..]);
      SplitAtDot(parts[0], Join(parts[1..]));
      assert [parts[0]] + parts[1..] == parts;
    }
  }

  /** The first part is where the string starts. */
  lemma {:induction false} FirstPartIsPrefix(s: string)
    ensures var p := Split(s)[0]; |p| <= |s| && p == s[..|p|]
    decreases |s|
  {
    if s != [] {
      FirstPartIsPrefix(s[1..]);
    }
  }

  /** The decimal text of a non-negative `Int` parses back to it. */
  lemma NatToStringParses(n: nat)
    requires n <= IntMax
    ensures ToIntOrNull(NatToString(n)) == Migrations.Some(n)
    ensures '.' !in NatToString(n) && !IsBlank(NatToString(n))
  {
    var s := NatToString(n);
    assert IsDigit(s[0]);
    DigitsAreNoSeparator(s);
  }

  /** `fromVersion(version)`: blank text is refused; otherwise the text is
      split on '.' and the parts are read by `FromParts`. */
  function FromVersion(version: string): (r: Result<SemanticVersion>)
    ensures IsBlank(version) ==> r == Fail(InvalidFormatMsg)
    ensures r.Ok? ==> NonNegative(r.value) && 1 <= |Split(version)| <= 3
    ensures r.Fail? ==> r.message == InvalidFormatMsg || r.message == NonNegativeMsg
  {
    if IsBlank(version) then Fail(InvalidFormatMsg) else FromParts(Split(version))
  }

  /** The `when (parts.size)` of `fromVersion`: one, two or three parts that
      all parse as integers give (major, 0, 0), (major, minor, 0) or
      (major, minor, patch), which the constructor then checks for negative
      components; any other part count, or a part that is not an integer,
      is refused. */
  function FromParts(parts: seq<string>): (r: Result<SemanticVersion>)
    ensures r.Ok? ==> NonNegative(r.value) && 1 <= |parts| <= 3
    ensures r.Fail? ==> r.message == InvalidFormatMsg || r.message == NonNegativeMsg
  {
    if |parts| == 1 then
      var major := ToIntOrNull(parts[0]);
      if major.None? then Fail(InvalidFormatMsg)
      else NewSemanticVersion(major.value, 0, 0)
    else if |parts| == 2 then
      var major, minor := ToIntOrNull(parts[0]), ToIntOrNull(parts[1]);
      if major.None? || minor.None? then Fail(InvalidFormatMsg)
      else NewSemanticVersion(major.value, minor.value, 0)
    else if |parts| == 3 then
      var major, minor, patch := ToIntOrNull(parts[0]), ToIntOrNull(parts[1]), ToIntOrNull(parts[2]);
      if major.None? || minor.None? || patch.None? then Fail(InvalidFormatMsg)
      else NewSemanticVersion(major.value, minor.value, patch.value)
    else Fail(InvalidFormatMsg)
  }

  /** A part `fromVersion` keeps: an integer that fits an `Int` and is not
      negative. */
  predicate IsComponent(part: string)
  {
    var n := ToIntOrNull(part);
    n.Some? && n.value >= 0
  }

  /** Component `i` of a version: major, minor, patch. */
  function Component(v: SemanticVersion, i: nat): int
    requires i < 3
  {
    if i == 0 then v.major else if i == 1 then v.minor else v.patch
  }

  /** Blank text splits into parts none of which is an integer. */
  lemma BlankTextHasNoNumber(version: string)
    requires IsBlank(version)
    ensures !IsComponent(Split(version)[0])
  {
    FirstPartIsPrefix(version);
    var p := Split(version)[0];
    if p != [] {
      assert IsWhitespace(version[0]);
    }
  }

  /** The blank check changes nothing observable: blank text has no dot, so
      it is one part, which is not an integer, and the `when` refuses it with
      the same message. */
  lemma {:induction false} BlankCheckChangesNothing(version: string)
    ensures FromVersion(version) == FromParts(Split(version))
  {
    if IsBlank(version) {
      assert '.' !in version by {
        forall i | 0 <= i < |version| ensures version[i] != '.' {
          assert IsWhitespace(version[i]);
        }
      }
      SplitNoDot(version);
      assert ToIntOrNull(version).None? by {
        if version != [] {
          assert IsWhitespace(version[0]);
        }
      }
    }
  }

  /** The `when` over the parts succeeds exactly when there are one to three
      parts, each a non-negative `Int`; the version then holds the parts in
      order and 0 for the missing ones. */
  lemma FromPartsAcceptsExactly(parts: seq<string>)
    ensures var r := FromParts(parts);
      && (r.Ok? <==> 1 <= |parts| <= 3 && forall i :: 0 <= i < |parts| ==> IsComponent(parts[i]))
      && (r.Ok? ==> forall i :: 0 <= i < 3 ==>
            Component(r.value, i) == if i < |parts| then ToIntOrNull(parts[i]).value else 0)
  {
    if |parts| == 1 {
      assert FromParts(parts).Ok? <==> IsComponent(parts[0]);
    } else if |parts| == 2 {
      assert FromParts(parts).Ok? <==> IsComponent(parts[0]) && IsComponent(parts[1]);
    } else if |parts| == 3 {
      assert FromParts(parts).Ok? <==> IsComponent(parts[0]) && IsComponent(parts[1]) && IsComponent(parts[2]);
    }
  }

  /** `fromVersion` succeeds exactly when the text has one to three parts,
      each a non-negative `Int`; the version then holds the parts in order
      and 0 for the missing ones. */
  lemma FromVersionAcceptsExactly(version: string)
    ensures var parts, r := Split(version), FromVersion(version);
      && (r.Ok? <==> 1 <= |parts| <= 3 && forall i :: 0 <= i < |parts| ==> IsComponent(parts[i]))
      && (r.Ok? ==> forall i :: 0 <= i < 3 ==>
            Component(r.value, i) == if i < |parts| then ToIntOrNull(parts[i]).value else 0)
  {
    FromPartsAcceptsExactly(Split(version));
    if IsBlank(version) {
      BlankTextHasNoNumber(version);
    }
  }

  /** Decimal digits hold no dot, and some digit is not whitespace. */
  lemma DigitsAreNoSeparator(s: string)
    requires AllDigits(s) && s != []
    ensures '.' !in s && !IsBlank(s)
  {
    assert IsDigit(s[0]);
  }

  /** Three dot-free parts joined with dots split back into those parts. */
  lemma {:induction false} SplitThree(a: string, b: string, c: string)
    requires '.' !in a && '.' !in b && '.' !in c
    ensures Split(a + "." + b + "." + c) == [a, b, c]
  {
    assert a + "." + b + "." + c == a + "." + (b + "." + c);
    SplitAtDot(a, b + "." + c);
    SplitAtDot(b, c);
    SplitNoDot(c);
  }

  /** `fromVersion(toString(v)) == v` for every version the constructor
      accepts. */
  lemma {:induction false} FromVersionInvertsToString(v: SemanticVersion)
    requires NonNegative(v)
    ensures FromVersion(ToString(v)) == Ok(v)
  {
    NatToStringParses(v.major);
    NatToStringParses(v.minor);
    NatToStringParses(v.patch);
  }

  /** "3.2.1" is read as (3, 2, 1): it is the text of that version. */
  lemma FromVersionReadsFullForm()
    ensures FromVersion("3.2.1") == Ok(SemanticVersion(3, 2, 1))
  {
    var v := SemanticVersion(3, 2, 1);
    assert ToString(v) == "3.2.1";
    FromVersionInvertsToString(v);
  }

  /** "3.2" is read as (3, 2, 0). */
  lemma FromVersionReadsShortForm()
    ensures FromVersion("3.2") == Ok(SemanticVersion(3, 2, 0))
  {
    assert Split("3.2") == [NatToString(3), NatToString(2)] by {
      assert "3.2" == NatToString(3) + "." + NatToString(2);
      SplitAtDot(NatToString(3), NatToString(2));
      SplitNoDot(NatToString(2));
    }
    NatToStringParses(3);
    NatToStringParses(2);
  }

  /** Four parts are too many: "3.2.1.4" is refused. */
  lemma FromVersionRefusesFourParts()
    ensures FromVersion("3.2.1.4") == Fail(InvalidFormatMsg)
  {
    assert "3.2.1.4" == "3" + "." + ("2" + "." + ("1" + "." + "4"));
    SplitAtDot("3", "2.1.4");
    SplitAtDot("2", "1.4");
    SplitAtDot("1", "4");
    SplitNoDot("4");
  }

  /** A last part with a suffix is not an integer: "3.2.1-alpha" is refused. */
  lemma FromVersionRefusesSuffix()
    ensures FromVersion("3.2.1-alpha") == Fail(InvalidFormatMsg)
  {
    SplitWithSuffix();
    assert ToIntOrNull("1-alpha").None? by {
      assert !IsDigit("1-alpha"[1]);
    }
    assert !IsWhitespace("3.2.1-alpha"[0]);
  }

  /** The parts of "3.2.1-alpha". */
  lemma SplitWithSuffix()
    ensures Split("3.2.1-alpha") == ["3", "2", "1-alpha"]
  {
    SplitThree("3", "2", "1-alpha");
    assert "3" + "." + "2" + "." + "1-alpha" == "3.2.1-alpha";
  }

  /** A last part made of a letter is not an integer: "3.2.a" is refused. */
  lemma FromVersionRefusesLetter()
    ensures FromVersion("3.2.a") == Fail(InvalidFormatMsg)
  {
    assert "3.2.a" == "3" + "." + ("2" + "." + "a");
    SplitAtDot("3", "2.a");
    assert "2.a" == "2" + "." + "a";
    SplitAtDot("2", "a");
    SplitNoDot("a");
    assert !IsDigit("a"[0]);
    assert !IsWhitespace("3.2.a"[0]);
  }

  /** `toIntOrNull` on a sign and a run of digits: the signed value when it
      fits an `Int`, otherwise null. */
  lemma ToIntOrNullReadsSignedDigits(sign: string, digits: string)
    requires sign == "" || sign == "+" || sign == "-"
    requires digits != [] && AllDigits(digits)
    ensures var n := if sign == "-" then -(DigitsValue(digits) as int) else DigitsValue(digits);
      ToIntOrNull(sign + digits) == if IntMin <= n <= IntMax then Migrations.Some(n) else Migrations.None
  {
    var s := sign + digits;
    assert Unsigned(s) == digits by {
      if sign == "" {
        assert s == digits && IsDigit(s[0]);
      } else {
        assert s[1..] == digits;
      }
    }
    assert s[0] == '-' <==> sign == "-" by {
      if sign == "" {
        assert s == digits && IsDigit(s[0]);
      }
    }
  }

  /** Leading zeros and a '+' are accepted, "-0" is zero, and a sign alone
      or empty text gives null. */
  lemma ToIntOrNullExamples()
    ensures ToIntOrNull("007") == Migrations.Some(7)
    ensures ToIntOrNull("+5") == Migrations.Some(5)
    ensures ToIntOrNull("-0") == Migrations.Some(0)
    ensures ToIntOrNull("+") == Migrations.None
    ensures ToIntOrNull("") == Migrations.None
  {
    assert "007"[..2] == "00" && "00"[..1] == "0" && "0"[..0] == "";
    assert "+5"[1..] == "5" && "5"[..0] == "";
    assert "-0"[1..] == "0";
  }

  /** "-1" is an integer, so the constructor refuses it, with its own message. */
  lemma FromVersionRefusesNegative()
    ensures FromVersion("-1") == Fail(NonNegativeMsg)
  {
    SplitNoDot("-1");
    assert "-1"[1..] == NatToString(1);
    assert !IsWhitespace("-1"[0]);
  }
}
