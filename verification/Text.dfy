/** Splitting a string at a separator and joining it again. */
module Text {
  /** The fields of `s` between occurrences of `c`; never empty. */
  function Split(s: string, c: char): (fields: seq<string>)
    ensures fields != []
    decreases |s|
  {
    if s == "" then [""]
    else
      var rest := Split(s[1..], c);
      if s[0] == c then [""] + rest else [[s[0]] + rest[0]] + rest[1..]
  }

  /** The entries of a `|`-separated list. */
  function Fields(ips: string): set<string> { set ip | ip in Split(ips, '|') }

  function Join(fields: seq<string>, c: char): string
    requires fields != []
    decreases |fields|
  {
    if |fields| == 1 then fields[0] else fields[0] + [c] + Join(fields[1..], c)
  }

  /** A field free of the separator, followed by a separator, is the first field. */
  lemma {:induction false} SplitField(f: string, s: string, c: char)
    requires c !in f
    ensures Split(f + [c] + s, c) == [f] + Split(s, c)
    decreases |f|
  {
    var whole := f + [c] + s;
    if f == "" {
      assert whole[0] == c && whole[1..] == s;
    } else {
      assert whole[0] == f[0] && whole[1..] == f[1..] + [c] + s;
      SplitField(f[1..], s, c);
      assert f == [f[0]] + f[1..];
    }
  }

  lemma {:induction false} SplitNone(f: string, c: char)
    requires c !in f
    ensures Split(f, c) == [f]
    decreases |f|
  {
    if f != "" {
      SplitNone(f[1..], c);
      assert f == [f[0]] + f[1..];
    }
  }

  lemma {:induction false} SplitJoin(fields: seq<string>, c: char)
    requires fields != [] && forall f :: f in fields ==> c !in f
    ensures Split(Join(fields, c), c) == fields
    decreases |fields|
  {
    assert fields[0] in fields;
    if |fields| == 1 {
      SplitNone(fields[0], c);
    } else {
      SplitField(fields[0], Join(fields[1..], c), c);
      SplitJoin(fields[1..], c);
    }
  }

  lemma {:induction false} JoinSplit(s: string, c: char)
    ensures Join(Split(s, c), c) == s && forall f :: f in Split(s, c) ==> c !in f
    decreases |s|
  {
    if s != "" {
      JoinSplit(s[1..], c);
      var rest := Split(s[1..], c);
      if s[0] == c {
        JoinMore("", rest, c);
        assert s == "" + [c] + s[1..];
      } else {
        JoinLonger(s[0], rest, c);
        assert s == [s[0]] + s[1..];
        assert rest[0] in rest;
      }
    }
  }

  lemma JoinMore(f: string, fields: seq<string>, c: char)
    requires fields != []
    ensures Join([f] + fields, c) == f + [c] + Join(fields, c)
  {
    assert ([f] + fields)[1..] == fields;
  }

  lemma JoinLonger(x: char, fields: seq<string>, c: char)
    requires fields != []
    ensures Join([[x] + fields[0]] + fields[1..], c) == [x] + Join(fields, c)
  {
    var longer := [[x] + fields[0]] + fields[1..];
    if |fields| > 1 {
      assert longer[1..] == fields[1..];
      hide Join;
      assert [x] + fields[0] + [c] + Join(fields[1..], c) == [x] + (fields[0] + [c] + Join(fields[1..], c));
    }
  }

  /** Unicode white space. */
  predicate IsSpace(c: char) {
    || '\U{0009}' <= c <= '\U{000D}' || c == ' ' || c == '\U{0085}' || c == '\U{00A0}' || c == '\U{1680}'
    || '\U{2000}' <= c <= '\U{200A}' || c == '\U{2028}' || c == '\U{2029}' || c == '\U{202F}' || c == '\U{205F}' || c == '\U{3000}'
  }

  function TrimLeft(s: string, space: char -> bool): string {
    if s != "" && space(s[0]) then TrimLeft(s[1..], space) else s
  }

  function TrimRight(s: string, space: char -> bool): string {
    if s != "" && space(s[|s| - 1]) then TrimRight(s[..|s| - 1], space) else s
  }

  function Trim(s: string): string { TrimRight(TrimLeft(s, IsSpace), IsSpace) }

  /** From `i` to `j` lies what is left of `s` without the white space at its ends. */
  ghost predicate Stripped(s: string, space: char -> bool, i: nat, j: nat)
    requires i <= j <= |s|
  {
    && (forall k :: 0 <= k < i || j <= k < |s| ==> space(s[k]))
    && (i < j ==> !space(s[i]) && !space(s[j - 1]))
  }

  lemma {:induction false} TrimRightExactly(s: string, space: char -> bool) returns (j: nat)
    ensures j <= |s| && TrimRight(s, space) == s[..j] && (forall k :: j <= k < |s| ==> space(s[k])) && (j > 0 ==> !space(s[j - 1]))
    decreases |s|
  {
    if s != "" && space(s[|s| - 1]) {
      j := TrimRightExactly(s[..|s| - 1], space);
    } else {
      j := |s|;
    }
  }

  lemma {:induction false} TrimLeftExactly(s: string, space: char -> bool) returns (i: nat)
    ensures i <= |s| && TrimLeft(s, space) == s[i..] && (forall k :: 0 <= k < i ==> space(s[k])) && (i < |s| ==> !space(s[i]))
    decreases |s|
  {
    if s != "" && space(s[0]) {
      var i' := TrimLeftExactly(s[1..], space);
      i := i' + 1;
      forall k | 0 <= k < i ensures space(s[k]) {
        if k > 0 { assert s[1..][k - 1] == s[k]; }
      }
    } else {
      i := 0;
    }
  }

  /** Trimming on both sides cuts off the white space at the ends and no more. */
  lemma TrimExactly(s: string, space: char -> bool)
    ensures exists i, j :: 0 <= i <= j <= |s| && Stripped(s, space, i, j) && TrimRight(TrimLeft(s, space), space) == s[i..j]
  {
    var i := TrimLeftExactly(s, space);
    var n := TrimRightExactly(s[i..], space);
    hide TrimLeft, TrimRight;
    StripBoth(s, space, i, n);
  }

  lemma StripBoth(s: string, space: char -> bool, i: nat, n: nat)
    requires i + n <= |s| && (forall k :: 0 <= k < i ==> space(s[k])) && (i < |s| ==> !space(s[i]))
    requires (forall k :: n <= k < |s[i..]| ==> space(s[i..][k])) && (n > 0 ==> !space(s[i..][n - 1]))
    ensures s[i..][..n] == s[i..i + n] && Stripped(s, space, i, i + n)
  {
    forall k | i + n <= k < |s| ensures space(s[k]) {
      assert s[i..][k - i] == s[k];
    }
  }

  predicate Solid(s: string) { s != "" && forall c :: c in s ==> !IsSpace(c) }

  lemma SolidTrims(s: string)
    requires Solid(s) || s == ""
    ensures Trim(s) == s
  {
    if s != "" { assert s[0] in s && s[|s| - 1] in s; }
  }

  lemma TwoSolidWords(a: string, b: string)
    requires Solid(a) && Solid(b)
    ensures Split(Trim(a + [' '] + b), ' ') == [a, b]
  {
    var s := a + [' '] + b;
    assert s[0] == a[0] && a[0] in a && s[|s| - 1] == b[|b| - 1] && b[|b| - 1] in b;
    SplitField(a, b, ' ');
    SplitNone(b, ' ');
  }

  /** strings.Compare by code point. */
  function CompareText(a: string, b: string): (r: int)
    ensures -1 <= r <= 1
  {
    if a == "" then if b == "" then 0 else -1
    else if b == "" then 1
    else if a[0] != b[0] then if a[0] < b[0] then -1 else 1
    else CompareText(a[1..], b[1..])
  }

  /** Text order is total, and zero only on equal strings. */
  lemma {:induction false} TextOrder(a: string, b: string, c: string)
    ensures CompareText(a, b) == -CompareText(b, a)
    ensures CompareText(a, b) == 0 <==> a == b
    ensures CompareText(a, b) <= 0 && CompareText(b, c) <= 0 ==>
      CompareText(a, c) <= 0 && (CompareText(a, c) == 0 ==> CompareText(a, b) == 0 && CompareText(b, c) == 0)
    decreases |a| + |b| + |c|
  {
    if a != "" && b != "" {
      assert a == [a[0]] + a[1..] && b == [b[0]] + b[1..];
      TextOrder(a[1..], b[1..], if c == "" then "" else c[1..]);
    } else if b != "" && c != "" {
      TextOrder("", b[1..], c[1..]);
    }
  }

  /** At `k` the texts differ for the first time, and `a` has ended or has the lower code point. */
  ghost predicate LessAt(a: string, b: string, k: nat) {
    k <= |a| && k < |b| && a[..k] == b[..k] && (k == |a| || a[k] < b[k])
  }

  /** Text order is by the first difference. */
  lemma {:induction false} CompareTextExactly(a: string, b: string)
    ensures CompareText(a, b) < 0 <==> exists k: nat :: LessAt(a, b, k)
    decreases |a|
  {
    if b == "" {
    } else if a == "" {
      assert LessAt(a, b, 0);
    } else if a[0] != b[0] {
      if a[0] < b[0] { assert LessAt(a, b, 0); }
      forall k: nat | k > 0
        ensures !LessAt(a, b, k)
      {
        if k <= |a| && k <= |b| { assert a[..k][0] == a[0] && b[..k][0] == b[0]; }
      }
    } else {
      CompareTextExactly(a[1..], b[1..]);
      if k: nat :| LessAt(a[1..], b[1..], k) {
        assert a[..k + 1] == [a[0]] + a[1..][..k] && b[..k + 1] == [b[0]] + b[1..][..k];
        assert LessAt(a, b, k + 1);
      }
      if k: nat :| LessAt(a, b, k) {
        assert k > 0;
        assert a[1..][..k - 1] == a[..k][1..] && b[1..][..k - 1] == b[..k][1..];
        assert LessAt(a[1..], b[1..], k - 1);
      }
    }
  }
}
