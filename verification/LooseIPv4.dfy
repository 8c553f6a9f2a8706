/**
 Literal IPv4 hosts in every spelling inet_aton accepts, and the public-address verdict.  The parser is
 proved against the grammar of spellings; its shift-and-or assembly is the base-256 sum of the parts.
 */
module LooseIPv4 {
  import opened Octets
  import opened Text
  import opened Wrappers

  const MAX_UINT64: nat := 0xFFFF_FFFF_FFFF_FFFF

  // ---------------------------------------------------------------- numbers

  function DigitOf(c: char): nat {
    if '0' <= c <= '9' then c as int - '0' as int
    else if 'a' <= c <= 'z' then c as int - 'a' as int + 10
    else if 'A' <= c <= 'Z' then c as int - 'A' as int + 10
    else 36
  }

  /** A non-empty string of digits in a base. */
  predicate Numeral(s: string, base: nat) { s != "" && forall c :: c in s ==> DigitOf(c) < base }

  function Value(s: string, base: nat): nat {
    if s == "" then 0 else Value(s[..|s| - 1], base) * base + DigitOf(s[|s| - 1])
  }

  /** strconv.ParseUint for 64 bits: a numeral that does not overflow. */
  function ParseUint(s: string, base: nat): Option<nat> {
    if Numeral(s, base) && Value(s, base) <= MAX_UINT64 then Some(Value(s, base)) else None
  }

  function ParsePart(part: string): Option<nat> {
    if part == "" then None
    else if "0x" <= part || "0X" <= part then ParseUint(part[2..], 16)
    else if |part| > 1 && part[0] == '0' then ParseUint(part[1..], 8)
    else ParseUint(part, 10)
  }

  // ---------------------------------------------------------------- spellings of a part

  /** `s` is a decimal, octal or hexadecimal spelling of `n`. */
  predicate SpellsPart(s: string, n: nat) {
    || (Numeral(s, 10) && (s[0] == '0' ==> s == "0") && Value(s, 10) == n)
    || (s != "" && s[0] == '0' && Numeral(s[1..], 8) && Value(s[1..], 8) == n)
    || (("0x" <= s || "0X" <= s) && Numeral(s[2..], 16) && Value(s[2..], 16) == n)
  }

  /** A part is accepted exactly when it spells a 64-bit number, which is then the result. */
  lemma PartIsSpelling(s: string, n: nat)
    ensures ParsePart(s) == Some(n) <==> SpellsPart(s, n) && n <= MAX_UINT64
  {
    if "0x" <= s || "0X" <= s {
      assert s[1] in s && s[1] in s[1..];
      assert !Numeral(s, 10) && !Numeral(s[1..], 8);
    } else if s != "" && s[0] == '0' && |s| > 1 {
      assert s != "0";
    } else if s != "" && s[0] == '0' {
      assert s == "0" && s[1..] == "";
    }
  }

  /** How a part can be written; `upper` is for the X of the prefix, `capitals` for the digits. */
  datatype Form = Decimal | Octal(zeros: nat) | Hex(zeros: nat, upper: bool, capitals: bool)

  function Zeros(k: nat): (s: string)
    ensures |s| == k && forall c :: c in s ==> c == '0'
  {
    if k == 0 then "" else "0" + Zeros(k - 1)
  }

  function DigitChar(d: nat, capitals: bool): (c: char)
    requires d < 16
    ensures DigitOf(c) == d && (c == '0' <==> d == 0) && c != '.'
  {
    if d < 10 then (d + '0' as int) as char else (d - 10 + (if capitals then 'A' else 'a') as int) as char
  }

  predicate Base(base: nat) { base == 8 || base == 10 || base == 16 }

  function Quotient(n: nat, base: nat): (q: nat)
    requires Base(base)
    ensures base <= n ==> q < n
    ensures q * base <= n < q * base + base
  {
    if base == 8 then n / 8 else if base == 10 then n / 10 else n / 16
  }

  function Print(n: nat, base: nat, capitals: bool): (s: string)
    requires Base(base)
    ensures Numeral(s, base) && '.' !in s
  {
    hide Quotient;
    if n < base then [DigitChar(n, capitals)]
    else Print(Quotient(n, base), base, capitals) + [DigitChar(n - Quotient(n, base) * base, capitals)]
  }

  /** The number with any number of leading zeros the base allows. */
  function Spell(n: nat, form: Form): string {
    match form
    case Decimal => Print(n, 10, false)
    case Octal(zeros) => "0" + (Zeros(zeros) + Print(n, 8, false))
    case Hex(zeros, upper, capitals) => (if upper then "0X" else "0x") + (Zeros(zeros) + Print(n, 16, capitals))
  }

  lemma {:induction false} PrintValue(n: nat, base: nat, capitals: bool)
    requires Base(base)
    ensures Value(Print(n, base, capitals), base) == n
    ensures Print(n, base, capitals)[0] == '0' ==> n == 0 && Print(n, base, capitals) == "0"
    decreases n
  {
    hide Quotient, DigitChar, Numeral, Base;
    var s := Print(n, base, capitals);
    if n < base {
      assert s[..0] == "";
      assert DigitChar(0, capitals) == '0';
    } else {
      var front := Print(Quotient(n, base), base, capitals);
      PrintValue(Quotient(n, base), base, capitals);
      assert s[..|s| - 1] == front;
    }
  }

  lemma {:induction false} ZerosValue(k: nat, s: string, base: nat)
    requires Numeral(s, base)
    ensures Numeral(Zeros(k) + s, base) && Value(Zeros(k) + s, base) == Value(s, base)
    decreases k + |s|
  {
    var z := Zeros(k) + s;
    assert s[0] in s && DigitOf('0') == 0 < base;
    assert z[..|z| - 1] == Zeros(k) + s[..|s| - 1];
    if |s| > 1 {
      ZerosValue(k, s[..|s| - 1], base);
    } else {
      assert s[..0] == "" && Zeros(k) + "" == Zeros(k);
      AllZero(k, base);
    }
  }

  lemma {:induction false} AllZero(k: nat, base: nat)
    ensures Value(Zeros(k), base) == 0
    decreases k
  {
    var z := Zeros(k);
    if k > 0 {
      assert z[k - 1] in z;
      ZerosShift(k);
      AllZero(k - 1, base);
    }
  }

  lemma {:induction false} ZerosShift(k: nat)
    requires k > 0
    ensures Zeros(k)[..k - 1] == Zeros(k - 1)
    decreases k
  {
    if k > 1 { ZerosShift(k - 1); assert Zeros(k)[..k - 1] == "0" + Zeros(k - 1)[..k - 2]; }
  }

  /** Every number has every form of spelling. */
  lemma EveryFormSpells(n: nat, form: Form)
    ensures SpellsPart(Spell(n, form), n) && '.' !in Spell(n, form)
  {
    hide Numeral, Value, Print, Zeros;
    match form
    case Decimal => PrintValue(n, 10, false);
    case Octal(zeros) =>
      PrintValue(n, 8, false);
      ZerosValue(zeros, Print(n, 8, false), 8);
      Prefixed("0", Zeros(zeros) + Print(n, 8, false));
    case Hex(zeros, upper, capitals) =>
      PrintValue(n, 16, capitals);
      ZerosValue(zeros, Print(n, 16, capitals), 16);
      Prefixed(if upper then "0X" else "0x", Zeros(zeros) + Print(n, 16, capitals));
  }

  lemma Prefixed(p: string, s: string)
    ensures (p + s)[|p|..] == s && p <= p + s
  {
  }

  // ---------------------------------------------------------------- addresses

  predicate Bytes(digits: seq<nat>) { forall i :: 0 <= i < |digits| ==> digits[i] < 256 }

  /** One to four parts: octets, then a last part that fills the rest of the address. */
  predicate InRange(parts: seq<nat>) {
    && 1 <= |parts| <= 4
    && Bytes(parts[..|parts| - 1])
    && parts[|parts| - 1] < Pow256(5 - |parts|)
  }

  function Assemble(parts: seq<nat>): nat
    requires parts != [] && |parts| <= 4
  {
    Base256(parts[..|parts| - 1]) * Pow256(5 - |parts|) + parts[|parts| - 1]
  }

  /** The host is a spelling of the address. */
  predicate Reads(host: string, parts: seq<nat>) {
    var fields := Split(host, '.');
    && |parts| == |fields|
    && 1 <= |parts| <= 4
    && InRange(parts)
    && forall i :: 0 <= i < |parts| ==> SpellsPart(fields[i], parts[i])
  }

  ghost predicate Denotes(host: string, address: nat) { exists parts :: Reads(host, parts) && Assemble(parts) == address }

  // ---------------------------------------------------------------- shift and or

  function Pow2(k: nat): (p: nat)
    ensures p > 0
  {
    if k == 0 then 1 else 2 * Pow2(k - 1)
  }

  function Shl(x: nat, k: nat): nat { x * Pow2(k) }

  function Shr(x: nat, k: nat): nat { if k == 0 then x else Shr(x / 2, k - 1) }

  /** Bitwise or. */
  function Or(x: nat, y: nat): nat
    decreases x + y
  {
    if x == 0 && y == 0 then 0
    else 2 * Or(x / 2, y / 2) + (if x % 2 == 1 || y % 2 == 1 then 1 else 0)
  }

  /** On disjoint bits, or is addition. */
  lemma {:induction false} OrIsSum(x: nat, y: nat, k: nat)
    requires y < Pow2(k)
    ensures Or(Shl(x, k), y) == Shl(x, k) + y
    decreases k
  {
    if k == 0 {
      OrZero(x);
    } else {
      var s := Shl(x, k);
      assert s == 2 * Shl(x, k - 1);
      OrIsSum(x, y / 2, k - 1);
      if s != 0 || y != 0 {
        assert Or(s, y) == 2 * Or(s / 2, y / 2) + y % 2;
      }
    }
  }

  lemma {:induction false} OrZero(x: nat)
    ensures Or(x, 0) == x
    decreases x
  {
    if x > 0 { OrZero(x / 2); }
  }

  /** The assembled 32-bit number, by the number of parts. */
  function Raw(values: seq<nat>): nat
    requires 1 <= |values| <= 4
  {
    match |values|
    case 1 => values[0]
    case 2 => Or(Shl(values[0], 24), values[1])
    case 3 => Or(Or(Shl(values[0], 24), Shl(values[1], 16)), values[2])
    case _ => Or(Or(Or(Shl(values[0], 24), Shl(values[1], 16)), Shl(values[2], 8)), values[3])
  }

  lemma Powers()
    ensures Pow2(8) == 256 && Pow2(16) == 65536 && Pow2(24) == 16777216
    ensures Pow256(1) == 256 && Pow256(2) == 65536 && Pow256(3) == 16777216 && Pow256(4) == 4294967296
  {
    assert Pow2(8) == 256;
    assert Pow2(16) == 65536;
    assert Pow2(24) == 16777216;
    assert Pow256(2) == 65536;
    assert Pow256(4) == 4294967296;
  }

  lemma Base256Small(v: seq<nat>)
    ensures |v| == 0 ==> Base256(v) == 0
    ensures |v| == 1 ==> Base256(v) == v[0]
    ensures |v| == 2 ==> Base256(v) == v[0] * 256 + v[1]
    ensures |v| == 3 ==> Base256(v) == (v[0] * 256 + v[1]) * 256 + v[2]
    ensures |v| == 4 ==> Base256(v) == ((v[0] * 256 + v[1]) * 256 + v[2]) * 256 + v[3]
  {
    if |v| == 1 { assert v[..0] == []; }
    if |v| > 1 {
      var w := v[..|v| - 1];
      Base256Small(w);
    }
  }

  lemma TwoOctets(a: nat, b: nat)
    requires b < 256
    ensures Or(Shl(a, 24), Shl(b, 16)) == Shl(a * 256 + b, 16)
  {
    hide Or, Pow2;
    Powers();
    OrIsSum(a, Shl(b, 16), 24);
  }

  lemma ThreeOctets(a: nat, b: nat, c: nat)
    requires b < 256 && c < 256
    ensures Or(Or(Shl(a, 24), Shl(b, 16)), Shl(c, 8)) == Shl((a * 256 + b) * 256 + c, 8)
  {
    hide Or, Pow2;
    TwoOctets(a, b);
    Powers();
    OrIsSum(a * 256 + b, Shl(c, 8), 16);
  }

  /** Shift-and-or assembles the base-256 sum of the parts, a 32-bit number. */
  lemma RawIsAssemble(v: seq<nat>)
    requires InRange(v)
    ensures Raw(v) == Assemble(v) < Pow256(4)
  {
    hide Or, Base256, Pow2, Pow256;
    Powers();
    var front := v[..|v| - 1];
    assert forall i :: 0 <= i < |v| - 1 ==> v[i] == front[i];
    Base256Small(front);
    if |v| == 2 {
      OrIsSum(v[0], v[1], 24);
    } else if |v| == 3 {
      TwoOctets(v[0], v[1]);
      OrIsSum(v[0] * 256 + v[1], v[2], 16);
    } else if |v| == 4 {
      ThreeOctets(v[0], v[1], v[2]);
      OrIsSum((v[0] * 256 + v[1]) * 256 + v[2], v[3], 8);
    }
  }

  function AddrFrom4(raw: nat): (octets: seq<nat>)
    ensures |octets| == 4 && Bytes(octets)
  {
    [Shr(raw, 24) % 256, Shr(raw, 16) % 256, Shr(raw, 8) % 256, raw % 256]
  }

  lemma {:induction false} ShrAdd(x: nat, j: nat, k: nat)
    ensures Shr(x, j + k) == Shr(Shr(x, j), k)
    decreases j
  {
    if j > 0 { ShrAdd(x / 2, j - 1, k); }
  }

  lemma ShrBytes(x: nat)
    ensures Shr(x, 8) == x / 256 && Shr(x, 16) == x / 256 / 256 && Shr(x, 24) == x / 256 / 256 / 256
  {
    ShrByte(x);
    ShrByte(x / 256);
    ShrByte(x / 256 / 256);
    ShrAdd(x, 8, 8);
    ShrAdd(x, 16, 8);
  }

  lemma ShrFew(x: nat)
    ensures Shr(x, 1) == x / 2 && Shr(x, 2) == x / 4
  {
    assert Shr(x, 2) == Shr(x / 2, 1) == Shr(x / 2 / 2, 0);
  }

  lemma ShrByte(x: nat)
    ensures Shr(x, 4) == x / 16 && Shr(x, 8) == x / 256
  {
    hide Shr;
    ShrFew(x);
    ShrFew(x / 4);
    ShrFew(x / 16);
    ShrFew(x / 64);
    ShrAdd(x, 2, 2);
    ShrAdd(x, 4, 2);
    ShrAdd(x, 6, 2);
    assert x / 4 / 4 == x / 16 && x / 16 / 4 == x / 64 && x / 64 / 4 == x / 256;
  }

  lemma OctetsOf(raw: nat)
    requires raw < Pow256(4)
    ensures Base256(AddrFrom4(raw)) == raw
  {
    hide Pow2, Base256, Shr;
    Powers();
    Base256Small(AddrFrom4(raw));
    ShrBytes(raw);
  }

  /** A number is at most one octet string. */
  lemma {:induction false} OctetsUnique(a: seq<nat>, b: seq<nat>)
    requires |a| == |b| && Bytes(a) && Bytes(b) && Base256(a) == Base256(b)
    ensures a == b
    decreases |a|
  {
    if a != [] {
      var x, y := a[|a| - 1], b[|b| - 1];
      var p, q := Base256(a[..|a| - 1]), Base256(b[..|b| - 1]);
      assert p == (p * 256 + x) / 256 && q == (q * 256 + y) / 256;
      OctetsUnique(a[..|a| - 1], b[..|b| - 1]);
      assert a == a[..|a| - 1] + [x] && b == b[..|b| - 1] + [y];
    }
  }

  lemma SpellsOne(s: string, n: nat, m: nat)
    requires SpellsPart(s, n) && SpellsPart(s, m)
    ensures n == m
  {
    if "0x" <= s || "0X" <= s {
      assert s[1] in s && s[1] in s[1..];
    } else if s[0] == '0' {
      assert s == "0" ==> s[1..] == "";
    }
  }

  /** A host spells at most one address. */
  lemma DenotesOne(host: string, a: nat, b: nat)
    requires Denotes(host, a) && Denotes(host, b)
    ensures a == b
  {
    hide SpellsPart, Assemble, InRange, Split;
    var p :| Reads(host, p) && Assemble(p) == a;
    var q :| Reads(host, q) && Assemble(q) == b;
    forall i | 0 <= i < |p|
      ensures p[i] == q[i]
    {
      SpellsOne(Split(host, '.')[i], p[i], q[i]);
    }
    assert p == q;
  }

  // ---------------------------------------------------------------- the parser

  /** The range checks, by the number of parts. */
  predicate RangesPass(values: seq<nat>) {
    match |values|
    case 0 => false
    case 1 => values[0] <= 0xFFFF_FFFF
    case 2 => values[0] <= 0xFF && values[1] <= 0xFF_FFFF
    case 3 => values[0] <= 0xFF && values[1] <= 0xFF && values[2] <= 0xFFFF
    case _ => forall i :: 0 <= i < |values| ==> values[i] <= 0xFF
  }

  lemma RangesAreInRange(values: seq<nat>)
    requires 1 <= |values| <= 4
    ensures RangesPass(values) <==> InRange(values)
  {
    hide Pow256;
    Powers();
    var front := values[..|values| - 1];
    assert values == front + [values[|values| - 1]];
    assert forall i :: 0 <= i < |front| ==> front[i] == values[i];
  }

  /** Accepts exactly the spellings of a 32-bit address, and returns that address. */
  method ParseLooseIPv4(host: string) returns (r: Option<seq<nat>>)
    ensures r.Some? <==> exists address :: Denotes(host, address)
    ensures r.Some? ==> |r.value| == 4 && Bytes(r.value) && Denotes(host, Base256(r.value))
  {
    hide ParsePart, SpellsPart, Split, InRange, Assemble, Raw, RangesPass, AddrFrom4, Base256;
    var parts := Split(host, '.');
    if |parts| == 0 || |parts| > 4 {
      NoShape(host);
      return None;
    }
    var values: seq<nat> := [];
    for i := 0 to |parts|
      invariant |values| == i
      invariant forall j :: 0 <= j < i ==> SpellsPart(parts[j], values[j])
    {
      var value := ParsePart(parts[i]);
      if value.None? {
        PartRejects(host, i);
        return None;
      }
      PartIsSpelling(parts[i], value.value);
      values := values + [value.value];
    }
    RangesAreInRange(values);
    if !RangesPass(values) {
      RangeRejects(host, values);
      return None;
    }
    var raw := Raw(values);
    assert Reads(host, values);
    RawIsAssemble(values);
    OctetsOf(raw);
    r := Some(AddrFrom4(raw));
    assert Denotes(host, Base256(r.value));
  }

  lemma NoShape(host: string)
    requires |Split(host, '.')| > 4
    ensures !exists address :: Denotes(host, address)
  {
    assert !exists parts :: Reads(host, parts);
  }

  /** A value in range always fits 64 bits, so a rejected part spells no part of an address. */
  lemma PartRejects(host: string, i: nat)
    requires i < |Split(host, '.')| && ParsePart(Split(host, '.')[i]).None?
    ensures !exists address :: Denotes(host, address)
  {
    hide SpellsPart, Split, ParsePart, Pow256;
    Powers();
    forall parts
      ensures !Reads(host, parts)
    {
      if |parts| == |Split(host, '.')| && InRange(parts) {
        assert i < |parts| - 1 ==> parts[i] == parts[..|parts| - 1][i];
        PartIsSpelling(Split(host, '.')[i], parts[i]);
      }
    }
  }

  lemma RangeRejects(host: string, values: seq<nat>)
    requires |values| == |Split(host, '.')| && !InRange(values)
    requires forall i :: 0 <= i < |values| ==> SpellsPart(Split(host, '.')[i], values[i])
    ensures !exists address :: Denotes(host, address)
  {
    hide SpellsPart, Split;
    forall parts
      ensures !Reads(host, parts)
    {
      if |parts| == |values| && parts != values {
        var i :| 0 <= i < |parts| && parts[i] != values[i];
        if SpellsPart(Split(host, '.')[i], parts[i]) { SpellsOne(Split(host, '.')[i], parts[i], values[i]); }
      }
    }
  }

  // ---------------------------------------------------------------- every spelling

  function SpellAll(parts: seq<nat>, forms: seq<Form>): (s: seq<string>)
    requires |parts| == |forms|
    ensures |s| == |parts| && forall i :: 0 <= i < |s| ==> s[i] == Spell(parts[i], forms[i])
  {
    seq(|parts|, i requires 0 <= i < |parts| => Spell(parts[i], forms[i]))
  }

  /** Every spelling, each part in any form, denotes the address it assembles. */
  lemma EverySpellingDenotes(parts: seq<nat>, forms: seq<Form>)
    requires |parts| == |forms| && InRange(parts)
    ensures Denotes(Join(SpellAll(parts, forms), '.'), Assemble(parts))
  {
    hide Spell, SpellsPart, Split, Join, InRange, Assemble;
    var s := SpellAll(parts, forms);
    SomeParts(parts);
    forall i | 0 <= i < |s|
      ensures SpellsPart(s[i], parts[i]) && '.' !in s[i]
    {
      EveryFormSpells(parts[i], forms[i]);
    }
    SplitJoin(s, '.');
    assert Reads(Join(s, '.'), parts);
  }

  lemma SomeParts(parts: seq<nat>)
    requires InRange(parts)
    ensures 1 <= |parts| <= 4
  {
  }

  /** Every address has spellings with one, two, three and four parts. */
  lemma EveryShape(address: nat, n: nat) returns (parts: seq<nat>)
    requires address < Pow256(4) && 1 <= n <= 4
    ensures |parts| == n && InRange(parts) && Assemble(parts) == address
  {
    hide Base256;
    Powers();
    var x, y := address / 256, address / 256 / 256;
    var a, b, c, d := y / 256, y % 256, x % 256, address % 256;
    assert y == a * 256 + b && x == y * 256 + c && address == x * 256 + d;
    parts :=
      if n == 1 then [address]
      else if n == 2 then [a, (b * 256 + c) * 256 + d]
      else if n == 3 then [a, b, c * 256 + d]
      else [a, b, c, d];
    Base256Small(parts[..n - 1]);
  }

  // ---------------------------------------------------------------- the verdict

  datatype Prefix = Prefix(octets: seq<nat>, bits: nat)

  /** The IPv4 rows of the refused blocks. */
  const NON_PUBLIC: seq<Prefix> := [
    Prefix([0, 0, 0, 0], 8), Prefix([127, 0, 0, 0], 8), Prefix([10, 0, 0, 0], 8),
    Prefix([172, 16, 0, 0], 12), Prefix([192, 168, 0, 0], 16), Prefix([169, 254, 0, 0], 16),
    Prefix([100, 64, 0, 0], 10), Prefix([192, 0, 0, 0], 24), Prefix([192, 0, 2, 0], 24),
    Prefix([198, 18, 0, 0], 15), Prefix([198, 51, 100, 0], 24), Prefix([203, 0, 113, 0], 24),
    Prefix([192, 88, 99, 0], 24), Prefix([224, 0, 0, 0], 4), Prefix([240, 0, 0, 0], 4)]

  /** The leading bits of the address are those of the prefix. */
  predicate Contains(prefix: Prefix, address: nat) {
    var low := if prefix.bits <= 32 then 32 - prefix.bits else 0;
    Shr(address, low) == Shr(Base256(prefix.octets), low)
  }

  ghost predicate InAnyPrefix(prefixes: seq<Prefix>, address: nat) {
    exists i :: 0 <= i < |prefixes| && Contains(prefixes[i], address)
  }

  method ContainsAnyPrefix(prefixes: seq<Prefix>, address: nat) returns (r: bool)
    ensures r <==> InAnyPrefix(prefixes, address)
  {
    for i := 0 to |prefixes|
      invariant forall j :: 0 <= j < i ==> !Contains(prefixes[j], address)
    {
      if Contains(prefixes[i], address) { return true; }
    }
    return false;
  }

  /** The refused blocks in terms of the octets. */
  predicate NonPublic(a: nat, b: nat, c: nat) {
    || a == 0
    || a == 10
    || a == 127
    || a >= 224
    || (a == 100 && 64 <= b < 128)
    || (a == 169 && b == 254)
    || (a == 172 && 16 <= b < 32)
    || (a == 192 && (b == 168 || (b == 88 && c == 99) || (b == 0 && (c == 0 || c == 2))))
    || (a == 198 && (b == 18 || b == 19 || (b == 51 && c == 100)))
    || (a == 203 && b == 0 && c == 113)
  }

  /** Shifting an address by the complement of each prefix length of the table. */
  lemma ShrOctets(o: seq<nat>)
    requires |o| == 4 && Bytes(o)
    ensures
      var x := Base256(o);
      && Shr(x, 8) == (o[0] * 256 + o[1]) * 256 + o[2]
      && Shr(x, 16) == o[0] * 256 + o[1]
      && Shr(x, 17) == (o[0] * 256 + o[1]) / 2
      && Shr(x, 20) == (o[0] * 256 + o[1]) / 16
      && Shr(x, 22) == (o[0] * 256 + o[1]) / 64
      && Shr(x, 24) == o[0]
      && Shr(x, 28) == o[0] / 16
  {
    hide Base256, Shr;
    Base256Small(o);
    var x := Base256(o);
    var y := o[0] * 256 + o[1];
    ShrBytes(x);
    assert x / 256 == y * 256 + o[2] && x / 256 / 256 == y && y / 256 == o[0];
    ShrAdd(x, 16, 1);
    ShrAdd(x, 16, 4);
    ShrAdd(x, 20, 2);
    ShrAdd(x, 24, 4);
    ShrByte(y);
    ShrByte(o[0]);
    ShrFew(y);
    ShrFew(y / 16);
  }

  /** What the leading bits of a table row say about the octets. */
  predicate LeadingBits(p: Prefix, o: seq<nat>)
    requires |p.octets| == |o| == 4
  {
    var (a, b) := (p.octets, o);
    if p.bits == 4 then a[0] / 16 == b[0] / 16
    else if p.bits == 8 then a[0] == b[0]
    else if p.bits == 10 then a[0] == b[0] && a[1] / 64 == b[1] / 64
    else if p.bits == 12 then a[0] == b[0] && a[1] / 16 == b[1] / 16
    else if p.bits == 15 then a[0] == b[0] && a[1] / 2 == b[1] / 2
    else if p.bits == 16 then a[0] == b[0] && a[1] == b[1]
    else a[0] == b[0] && a[1] == b[1] && a[2] == b[2]
  }

  lemma ContainsIsLeadingBits(p: Prefix, o: seq<nat>)
    requires |p.octets| == |o| == 4 && Bytes(p.octets) && Bytes(o)
    requires p.bits in {4, 8, 10, 12, 15, 16, 24}
    ensures Contains(p, Base256(o)) <==> LeadingBits(p, o)
  {
    hide Base256, Shr;
    ShrOctets(p.octets);
    ShrOctets(o);
    PairsSplit(p.octets, o);
  }

  /** Two-octet numbers and their halvings below the second octet agree octet by octet. */
  lemma PairsSplit(a: seq<nat>, b: seq<nat>)
    requires |a| == |b| == 4 && Bytes(a) && Bytes(b)
    ensures
      var x, y := a[0] * 256 + a[1], b[0] * 256 + b[1];
      && (x == y <==> a[0] == b[0] && a[1] == b[1])
      && (x / 2 == y / 2 <==> a[0] == b[0] && a[1] / 2 == b[1] / 2)
      && (x / 16 == y / 16 <==> a[0] == b[0] && a[1] / 16 == b[1] / 16)
      && (x / 64 == y / 64 <==> a[0] == b[0] && a[1] / 64 == b[1] / 64)
      && (x * 256 + a[2] == y * 256 + b[2] <==> x == y && a[2] == b[2])
  {
    Halved(a[0], a[1]);
    Halved(b[0], b[1]);
    hide *;
  }

  lemma Halved(h: nat, l: nat)
    requires l < 256
    ensures (h * 256 + l) / 2 == h * 128 + l / 2 && l / 2 < 128
    ensures (h * 256 + l) / 16 == h * 16 + l / 16 && l / 16 < 16
    ensures (h * 256 + l) / 64 == h * 4 + l / 64 && l / 64 < 4
  {
  }

  lemma TableRows(i: nat)
    requires i < |NON_PUBLIC|
    ensures |NON_PUBLIC[i].octets| == 4 && Bytes(NON_PUBLIC[i].octets)
    ensures NON_PUBLIC[i].bits in {4, 8, 10, 12, 15, 16, 24}
  {
  }

  lemma RowRefuses(i: nat, o: seq<nat>)
    requires i < |NON_PUBLIC| && |NON_PUBLIC[i].octets| == |o| == 4 && Bytes(o)
    requires LeadingBits(NON_PUBLIC[i], o)
    ensures NonPublic(o[0], o[1], o[2])
  {
  }

  /** The row that refuses an address. */
  function RowFor(a: nat, b: nat, c: nat): (i: nat)
    requires NonPublic(a, b, c)
    ensures i < |NON_PUBLIC|
  {
    if a == 0 then 0
    else if a == 127 then 1
    else if a == 10 then 2
    else if a == 172 then 3
    else if a == 192 then if b == 168 then 4 else if b == 88 then 12 else if c == 0 then 7 else 8
    else if a == 169 then 5
    else if a == 100 then 6
    else if a == 198 then if b == 51 then 10 else 9
    else if a == 203 then 11
    else if a < 240 then 13
    else 14
  }

  lemma RowForRefuses(o: seq<nat>)
    requires |o| == 4 && Bytes(o) && NonPublic(o[0], o[1], o[2])
    ensures
      var row := NON_PUBLIC[RowFor(o[0], o[1], o[2])];
      |row.octets| == 4 && LeadingBits(row, o)
  {
  }

  /** The table refuses exactly the blocks its rows name. */
  lemma BlocksAreOctets(o: seq<nat>)
    requires |o| == 4 && Bytes(o)
    ensures InAnyPrefix(NON_PUBLIC, Base256(o)) <==> NonPublic(o[0], o[1], o[2])
  {
    hide Base256, Contains, NonPublic, LeadingBits, RowFor;
    if NonPublic(o[0], o[1], o[2]) {
      var i := RowFor(o[0], o[1], o[2]);
      RowForRefuses(o);
      TableRows(i);
      ContainsIsLeadingBits(NON_PUBLIC[i], o);
    }
    if i: nat :| i < |NON_PUBLIC| && Contains(NON_PUBLIC[i], Base256(o)) {
      TableRows(i);
      ContainsIsLeadingBits(NON_PUBLIC[i], o);
      RowRefuses(i, o);
    }
  }

  /** Two spellings of one address are parsed to the same octets, and so get the same verdict. */
  lemma SpellingsAgree(h: string, g: string, address: nat, x: seq<nat>, y: seq<nat>)
    requires Denotes(h, address) && Denotes(g, address)
    requires |x| == |y| == 4 && Bytes(x) && Bytes(y)
    requires Denotes(h, Base256(x)) && Denotes(g, Base256(y))
    ensures x == y && Base256(x) == address
  {
    hide Denotes, Base256;
    DenotesOne(h, Base256(x), address);
    DenotesOne(g, Base256(y), address);
    OctetsUnique(x, y);
  }

  /** The verdict on an IPv4 literal, from its octets alone, so every spelling gets the same one. */
  method IsPublicLiteralIPv4(octets: seq<nat>) returns (public: bool)
    requires |octets| == 4 && Bytes(octets)
    ensures public <==> !NonPublic(octets[0], octets[1], octets[2])
  {
    var refused := ContainsAnyPrefix(NON_PUBLIC, Base256(octets));
    BlocksAreOctets(octets);
    public := !refused;
  }
}
