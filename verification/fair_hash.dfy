/** The fair hash generator: a lookup table over the 2^keyWidth keys whose values are a
    shuffled copy of the keys, written out as a SystemVerilog `case` function. The
    generated file is modelled as its sequence of lines (each written followed by a
    newline). The pseudo-random generator is a parameter: `rng(seed)(n)` is the index
    source of `random.shuffle` on an n-entry list after `random.seed(seed)`, and
    `pick(i)` (one such source) determines the index drawn when the shuffle is at
    position `i`. The source depends on n as well as on the seed because Python draws
    from position n - 1 downwards, so the draw used at position i is the (n - 1 - i)-th. */
module FairHash {

  import opened Wrappers
  import opened Decimal

  const MaxKeyWidth: nat := 16

  const WidthMessage: string := "Only supports 1 <= key_width <= 16 for reasonable table size"

  /** `2 ** n` */
  function Pow2(n: nat): (r: nat)
    ensures r >= 1
  {
    if n == 0 then 1 else 2 * Pow2(n - 1)
  }

  /** `list(range(n))` */
  function Range(n: nat): (r: seq<nat>)
    ensures |r| == n && forall k | 0 <= k < n :: r[k] == k
  {
    seq(n, k => k)
  }

  /** `s` with the entries at `i` and `j` exchanged. */
  function Swap<T>(s: seq<T>, i: nat, j: nat): (r: seq<T>)
    requires i < |s| && j < |s|
    ensures |r| == |s|
  {
    s[i := s[j]][j := s[i]]
  }

  // ---------------------------------------------------------------------------
  // The shuffle: Python's Fisher-Yates, for i from len - 1 down to 1 exchange the
  // entry at i with the entry at a drawn index j in [0, i].
  // ---------------------------------------------------------------------------

  /** The index drawn at position `i`: one of 0..i. */
  function Pick(pick: nat -> nat, i: nat): (j: nat)
    ensures j <= i
  {
    pick(i) % (i + 1)
  }

  /** The shuffle steps for positions i, i - 1, ..., 1. */
  function ShuffleDown<T>(s: seq<T>, i: nat, pick: nat -> nat): (r: seq<T>)
    requires i < |s|
    ensures |r| == |s|
    decreases i
  {
    if i == 0 then s else ShuffleDown(Swap(s, i, Pick(pick, i)), i - 1, pick)
  }

  lemma ShuffleDownStep<T>(s: seq<T>, i: nat, pick: nat -> nat)
    requires 0 < i < |s|
    ensures ShuffleDown(s, i, pick) == ShuffleDown(Swap(s, i, Pick(pick, i)), i - 1, pick)
  {
  }

  /** `random.shuffle(s)` with the draws `pick`. */
  function Shuffled<T>(s: seq<T>, pick: nat -> nat): (r: seq<T>)
    ensures |r| == |s|
  {
    if |s| <= 1 then s else ShuffleDown(s, |s| - 1, pick)
  }

  /** Exchanging two entries keeps the same multiset of entries. */
  lemma SwapPermutes<T>(s: seq<T>, i: nat, j: nat)
    requires i < |s| && j < |s|
    ensures multiset(Swap(s, i, j)) == multiset(s)
  {
    var t := s[i := s[j]];
    assert multiset(t) == multiset(s) - multiset{s[i]} + multiset{s[j]};
    assert multiset(t[j := s[i]]) == multiset(t) - multiset{t[j]} + multiset{s[i]};
  }

  lemma {:induction false} ShuffleDownPermutes<T>(s: seq<T>, i: nat, pick: nat -> nat)
    requires i < |s|
    ensures multiset(ShuffleDown(s, i, pick)) == multiset(s)
    decreases i
  {
    if i > 0 {
      SwapPermutes(s, i, Pick(pick, i));
      ShuffleDownPermutes(Swap(s, i, Pick(pick, i)), i - 1, pick);
    }
  }

  /** The shuffled list has the same entries, each as often, as the list it shuffled. */
  lemma ShuffledPermutes<T>(s: seq<T>, pick: nat -> nat)
    ensures multiset(Shuffled(s, pick)) == multiset(s)
  {
    if |s| > 1 {
      ShuffleDownPermutes(s, |s| - 1, pick);
    }
  }

  /** `t` lists every number 0..n-1 exactly once. */
  predicate IsPermutationOfRange(t: seq<nat>, n: nat)
  {
    && |t| == n
    && (forall k | 0 <= k < n :: t[k] < n)
    && (forall a, b | 0 <= a < b < n :: t[a] != t[b])
    && (forall v: nat | v < n :: v in t)
  }

  lemma SwapKeepsPermutationOfRange(t: seq<nat>, n: nat, i: nat, j: nat)
    requires IsPermutationOfRange(t, n) && i < n && j < n
    ensures IsPermutationOfRange(Swap(t, i, j), n)
  {
    var u := Swap(t, i, j);
    forall v: nat | v < n
      ensures v in u
    {
      assert v in t;
      var k :| 0 <= k < |t| && t[k] == v;
      var k' := if k == i then j else if k == j then i else k;
      assert u[k'] == v;
    }
  }

  lemma {:induction false} ShuffleDownKeepsPermutationOfRange(t: seq<nat>, n: nat, i: nat, pick: nat -> nat)
    requires IsPermutationOfRange(t, n) && i < n
    ensures IsPermutationOfRange(ShuffleDown(t, i, pick), n)
    decreases i
  {
    if i > 0 {
      SwapKeepsPermutationOfRange(t, n, i, Pick(pick, i));
      ShuffleDownKeepsPermutationOfRange(Swap(t, i, Pick(pick, i)), n, i - 1, pick);
    }
  }

  /** Whatever the draws, the shuffled keys 0..n-1 list every key exactly once: the
      table maps the keys one-to-one onto themselves. */
  lemma ShuffledRangeIsPermutation(n: nat, pick: nat -> nat)
    ensures IsPermutationOfRange(Shuffled(Range(n), pick), n)
    ensures multiset(Shuffled(Range(n), pick)) == multiset(Range(n))
  {
    ShuffledPermutes(Range(n), pick);
    forall v: nat | v < n
      ensures v in Range(n)
    {
      assert Range(n)[v] == v;
    }
    if n > 1 {
      ShuffleDownKeepsPermutationOfRange(Range(n), n, n - 1, pick);
    }
  }

  /** `random.shuffle(values)`: the list is shuffled in place. */
  method Shuffle(values: array<nat>, pick: nat -> nat)
    modifies values
    ensures values[..] == Shuffled(old(values[..]), pick)
  {
    if values.Length <= 1 {
      return;
    }
    var i := values.Length - 1;
    while i > 0
      invariant 0 <= i < values.Length
      invariant Shuffled(old(values[..]), pick) == ShuffleDown(values[..], i, pick)
    {
      var j := Pick(pick, i);
      ghost var before := values[..];
      values[i], values[j] := values[j], values[i];
      assert values[..] == Swap(before, i, j);
      ShuffleDownStep(before, i, pick);
      i := i - 1;
    }
  }

  // ---------------------------------------------------------------------------
  // The generated lines.
  // ---------------------------------------------------------------------------

  /** `"{}'d{:2}".format(w, x)`: the SystemVerilog sized literal of `x` with width `w`,
      the digits of `x` right-aligned in two characters. */
  function SizedLiteral(w: nat, x: nat): (r: string)
    ensures NatToString(w) + "'d" <= r
    ensures |NatToString(w)| + 2 + |NatToString(x)| <= |r|
    ensures r[|r| - |NatToString(x)|..] == NatToString(x)
  {
    NatToString(w) + ("'d" + PadLeft(NatToString(x), 2))
  }

  /** `"    {}'d{:2} : fair_hash = {}'d{:2};".format(w, k, w, v)` */
  function ArmLine(w: nat, k: nat, v: nat): string
  {
    "    " + (SizedLiteral(w, k) + (" : fair_hash = " + (SizedLiteral(w, v) + ";")))
  }

  /** Reads a sized literal at the start of `s`: its width, its value and the text after it. */
  function ParseSized(s: string): Option<(nat, nat, string)>
  {
    match ParseNat(s)
    case None => None
    case Some((w, s1)) =>
      match Expect("'d", s1)
      case None => None
      case Some(s2) =>
        match ParseNat(SkipSpaces(s2))
        case None => None
        case Some((x, rest)) => Some((w, x, rest))
  }

  /** Reads a case arm back: its key width, key and value. */
  function ParseArm(line: string): Option<(nat, nat, nat)>
  {
    match Expect("    ", line)
    case None => None
    case Some(s1) =>
      match ParseSized(s1)
      case None => None
      case Some((w, k, s2)) =>
        match Expect(" : fair_hash = ", s2)
        case None => None
        case Some(s3) =>
          match ParseSized(s3)
          case None => None
          case Some((w2, v, s4)) =>
            if s4 == ";" && w2 == w then Some((w, k, v)) else None
  }

  /** A sized literal followed by text that does not start with a digit reads back as
      its width, its value and that text. */
  lemma SizedLiteralRoundTrip(w: nat, x: nat, rest: string)
    requires rest == [] || !IsDigit(rest[0])
    ensures ParseSized(SizedLiteral(w, x) + rest) == Some((w, x, rest))
  {
    var padded := PadLeft(NatToString(x), 2) + rest;
    assert SizedLiteral(w, x) + rest == NatToString(w) + ("'d" + padded);
    ParseSpelledSized(w, x, rest);
  }

  /** The round trip of `SizedLiteralRoundTrip`, on the literal spelled out. */
  lemma ParseSpelledSized(w: nat, x: nat, rest: string)
    requires rest == [] || !IsDigit(rest[0])
    ensures ParseSized(NatToString(w) + ("'d" + (PadLeft(NatToString(x), 2) + rest))) == Some((w, x, rest))
  {
    var padded := PadLeft(NatToString(x), 2) + rest;
    ParseNatToString(w, "'d" + padded);
    assert Expect("'d", "'d" + padded) == Some(padded);
    SkipPadding(x, 2, rest);
    ParseNatToString(x, rest);
  }

  /** An arm line determines its key width, key and value: reading it back gives them. */
  lemma ArmLineRoundTrip(w: nat, k: nat, v: nat)
    ensures ParseArm(ArmLine(w, k, v)) == Some((w, k, v))
  {
    var tail := SizedLiteral(w, v) + ";";
    var s1 := SizedLiteral(w, k) + (" : fair_hash = " + tail);
    assert Expect("    ", ArmLine(w, k, v)) == Some(s1);
    SizedLiteralRoundTrip(w, k, " : fair_hash = " + tail);
    assert Expect(" : fair_hash = ", " : fair_hash = " + tail) == Some(tail);
    SizedLiteralRoundTrip(w, v, ";");
  }

  /** The two comment lines, the blank line they end with, the function header and the
      opening of the `case`. */
  function HeaderLines(w: nat, seed: int): (r: seq<string>)
    requires w >= 1
    ensures |r| == 5 && r[2] == "" && r[4] == "  case (key)"
  {
    [ "// Fair hash function generated for input key width = " + NatToString(w),
      "// Total " + NatToString(Pow2(w)) + " entries, random seed = " + IntToString(seed),
      "",
      "function automatic logic [" + NatToString(w - 1) + ":0] fair_hash(input logic ["
        + NatToString(w - 1) + ":0] key);",
      "  case (key)" ]
  }

  /** The `default` arm and the closing lines. */
  function FooterLines(): seq<string>
  {
    ["    default : fair_hash = '0;", "  endcase", "endfunction"]
  }

  /** One arm per key, the k-th mapping key `keys[k]` to `values[k]`. */
  function ArmLines(w: nat, keys: seq<nat>, values: seq<nat>): (r: seq<string>)
    requires |keys| == |values|
    ensures |r| == |keys|
  {
    seq(|keys|, k requires 0 <= k < |keys| => ArmLine(w, keys[k], values[k]))
  }

  /** The whole generated file for key width `w`, seed `seed` and shuffled `values`. */
  function HashFile(w: nat, seed: int, values: seq<nat>): (r: seq<string>)
    requires w >= 1 && |values| == Pow2(w)
    ensures |r| == Pow2(w) + 8
  {
    HeaderLines(w, seed) + ArmLines(w, Range(Pow2(w)), values) + FooterLines()
  }

  /** The loop writing one arm per key: `lines` followed by the arm of each key in order. */
  method AppendArms(lines: seq<string>, w: nat, keys: array<nat>, values: array<nat>)
    returns (r: seq<string>)
    requires keys.Length == values.Length
    ensures r == lines + ArmLines(w, keys[..], values[..])
  {
    r := lines;
    for k := 0 to keys.Length
      invariant r == lines + ArmLines(w, keys[..k], values[..k])
    {
      assert keys[..k + 1] == keys[..k] + [keys[k]] && values[..k + 1] == values[..k] + [values[k]];
      r := r + [ArmLine(w, keys[k], values[k])];
    }
    assert keys[..keys.Length] == keys[..] && values[..values.Length] == values[..];
  }

  /** `generate_even_hash_mapping`: rejects key widths outside 1..16; otherwise builds
      keys 0..2^w-1, shuffles a copy of them into the values, and emits the header, one
      arm per key in key order, and the footer. The result is a function of the key width,
      the seed and the generator: the same seed gives the same file. */
  method GenerateEvenHashMapping(keyWidth: int, seed: int, rng: int -> nat -> nat -> nat)
    returns (r: Result<seq<string>, string>)
    ensures r.Failure? <==> !(1 <= keyWidth <= MaxKeyWidth)
    ensures r.Failure? ==> r.error == WidthMessage
    ensures r.Success? ==> r.value == HashFile(keyWidth, seed, Shuffled(Range(Pow2(keyWidth)), rng(seed)(Pow2(keyWidth))))
  {
    if !(1 <= keyWidth <= MaxKeyWidth) {
      return Failure(WidthMessage);
    }
    var numEntries := Pow2(keyWidth);
    var keys := new nat[numEntries](k => k);
    var values := new nat[numEntries](k requires 0 <= k < numEntries reads keys => keys[k]);
    assert keys[..] == Range(numEntries);
    assert values[..] == Range(numEntries);
    Shuffle(values, rng(seed)(numEntries));
    var lines := AppendArms(HeaderLines(keyWidth, seed), keyWidth, keys, values);
    lines := lines + FooterLines();
    return Success(lines);
  }

  /** The generated file in its fixed order: the five header lines (two comments, a
      blank line, the function header with bit range [w-1:0] on argument and result,
      `case (key)`), then at line 5 + k the arm for key k and the k-th value, then the
      `default` arm yielding '0, `endcase` and `endfunction`. */
  lemma HashFileLayout(w: nat, seed: int, values: seq<nat>)
    requires w >= 1 && |values| == Pow2(w)
    ensures var lines := HashFile(w, seed, values);
            && |lines| == |values| + 8
            && lines[..5] == HeaderLines(w, seed)
            && lines[3] == "function automatic logic [" + NatToString(w - 1) + ":0] fair_hash(input logic ["
                           + NatToString(w - 1) + ":0] key);"
            && (forall k: nat | k < |values| :: lines[5 + k] == ArmLine(w, k, values[k]))
            && lines[|values| + 5..] == FooterLines()
  {
    var header, arms, footer := HeaderLines(w, seed), ArmLines(w, Range(Pow2(w)), values), FooterLines();
    var lines := HashFile(w, seed, values);
    assert lines == header + arms + footer;
    ThreeParts(header, arms, footer);
    assert lines[3] == header[3];
    forall k: nat | k < |values|
      ensures lines[5 + k] == ArmLine(w, k, values[k])
    {
      assert lines[5 + k] == arms[k];
    }
  }

  /** Where the three parts of a concatenation `a + b + c` sit in it. */
  lemma ThreeParts<T>(a: seq<T>, b: seq<T>, c: seq<T>)
    ensures (a + b + c)[..|a|] == a
    ensures forall k | 0 <= k < |b| :: (a + b + c)[|a| + k] == b[k]
    ensures (a + b + c)[|a| + |b|..] == c
  {
  }

  /** Line 5 + k of a generated file reads back as the arm mapping key k to the k-th value. */
  lemma HashFileArmsReadBack(w: nat, seed: int, values: seq<nat>)
    requires w >= 1 && |values| == Pow2(w)
    ensures var lines := HashFile(w, seed, values);
            forall k: nat | k < |values| :: ParseArm(lines[5 + k]) == Some((w, k, values[k]))
  {
    HashFileLayout(w, seed, values);
    forall k: nat | k < |values|
      ensures ParseArm(HashFile(w, seed, values)[5 + k]) == Some((w, k, values[k]))
    {
      ArmLineRoundTrip(w, k, values[k]);
    }
  }

  /** In the generated file for key width w (1..16), the line 5 + k reads back as the arm
      mapping key k to the k-th shuffled value, and those values list every key
      0..2^w-1 exactly once: the generated `fair_hash` is a bijection on [0, 2^w). */
  lemma HashFileIsBijection(w: nat, seed: int, pick: nat -> nat)
    requires 1 <= w <= MaxKeyWidth
    ensures var values: seq<nat> := Shuffled(Range(Pow2(w)), pick);
            var lines := HashFile(w, seed, values);
            && |lines| == Pow2(w) + 8
            && (forall k: nat | k < Pow2(w) :: ParseArm(lines[5 + k]) == Some((w, k, values[k])))
            && IsPermutationOfRange(values, Pow2(w))
  {
    var values: seq<nat> := Shuffled(Range(Pow2(w)), pick);
    ShuffledRangeIsPermutation(Pow2(w), pick);
    HashFileLayout(w, seed, values);
    HashFileArmsReadBack(w, seed, values);
  }
}
