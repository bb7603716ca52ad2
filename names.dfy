/**
 * Constraint names. The wireframe keys its constraints by strings built with
 * Python's '%d' formatting ("segment_12", "implicit_segment_12",
 * "continuity_node_7") and reads segment ids back with `key.split('_')` and
 * `int(...)`. This module models those three string operations and proves that
 * formatting and parsing are inverse, so that names of different segments or
 * nodes never collide.
 */
module Names {
  import opened Wrappers

  predicate IsDigit(c: char) { '0' <= c <= '9' }

  predicate AllDigits(s: string) { forall k | 0 <= k < |s| :: IsDigit(s[k]) }

  function DigitChar(d: nat): (c: char)
    requires d < 10
    ensures IsDigit(c) && (c as int) - ('0' as int) == d
  {
    (('0' as int) + d) as char
  }

  /** Decimal text of a natural number, as '%d' prints it. */
  function Decimal(n: nat): (s: string)
    ensures |s| >= 1 && AllDigits(s)
    ensures n >= 10 ==> |s| >= 2
    decreases n
  {
    if n < 10 then [DigitChar(n)] else Decimal(n / 10) + [DigitChar(n % 10)]
  }

  /** Value of a string of decimal digits. */
  function DigitsValue(s: string): nat
    requires AllDigits(s)
  {
    if s == [] then 0 else DigitsValue(s[..|s| - 1]) * 10 + ((s[|s| - 1] as int) - ('0' as int))
  }

  /** Python's `int(s)` on the texts the wireframe produces: None where it would raise. */
  function ParseNat(s: string): (r: Option<nat>)
    ensures r.Some? <==> (|s| >= 1 && AllDigits(s))
  {
    if |s| >= 1 && AllDigits(s) then Some(DigitsValue(s)) else None
  }

  lemma {:induction false} ParseDecimal(n: nat)
    ensures ParseNat(Decimal(n)) == Some(n)
    decreases n
  {
    var s := Decimal(n);
    if n >= 10 {
      ParseDecimal(n / 10);
      assert s[..|s| - 1] == Decimal(n / 10);
      assert DigitsValue(s) == (n / 10) * 10 + n % 10;
    } else {
      assert s[..|s| - 1] == [];
      assert DigitsValue(s) == n;
    }
  }

  /** Distinct numbers print differently. */
  lemma DecimalInjective(a: nat, b: nat)
    requires Decimal(a) == Decimal(b)
    ensures a == b
  {
    ParseDecimal(a);
    ParseDecimal(b);
  }

  /** Python's `s.split(sep)`: the pieces between separators, always at least one. */
  function Split(s: string, sep: char): (parts: seq<string>)
    ensures |parts| >= 1
  {
    if s == [] then [""]
    else
      var rest := Split(s[1..], sep);
      if s[0] == sep then [""] + rest else [[s[0]] + rest[0]] + rest[1..]
  }

  lemma {:induction false} SplitNoSeparator(s: string, sep: char)
    requires sep !in s
    ensures Split(s, sep) == [s]
  {
    if s != [] {
      assert sep !in s[1..] && s[0] != sep;
      SplitNoSeparator(s[1..], sep);
      assert [s[0]] + s[1..] == s;
    }
  }

  lemma {:induction false} SplitJoin(p: string, sep: char, q: string)
    ensures Split(p + [sep] + q, sep) == Split(p, sep) + Split(q, sep)
  {
    var x := p + [sep] + q;
    if p == [] {
      assert x == [sep] + q;
      assert x[1..] == q;
    } else {
      SplitJoin(p[1..], sep, q);
      assert x[0] == p[0] && x[1..] == p[1..] + [sep] + q;
      SplitCons(x, p, sep, Split(q, sep));
    }
  }

  /** Split of two strings with the same first character, whose tails split alike up to a suffix. */
  lemma SplitCons(x: string, p: string, sep: char, b: seq<string>)
    requires x != [] && p != [] && x[0] == p[0]
    requires Split(x[1..], sep) == Split(p[1..], sep) + b
    ensures Split(x, sep) == Split(p, sep) + b
  {
    if p[0] == sep {
      SplitConsSep(x, p, sep, b);
    } else {
      SplitConsOther(x, p, sep, b);
    }
  }

  lemma SplitConsSep(x: string, p: string, sep: char, b: seq<string>)
    requires x != [] && p != [] && x[0] == p[0] == sep
    requires Split(x[1..], sep) == Split(p[1..], sep) + b
    ensures Split(x, sep) == Split(p, sep) + b
  {
    var a := Split(p[1..], sep);
    assert Split(x, sep) == [""] + (a + b);
    assert Split(p, sep) == [""] + a;
    assert [""] + (a + b) == ([""] + a) + b;
  }

  lemma SplitConsOther(x: string, p: string, sep: char, b: seq<string>)
    requires x != [] && p != [] && x[0] == p[0] != sep
    requires Split(x[1..], sep) == Split(p[1..], sep) + b
    ensures Split(x, sep) == Split(p, sep) + b
  {
    var r, a := Split(x[1..], sep), Split(p[1..], sep);
    HeadTailOfAppend(a, b);
    var h := [p[0]] + a[0];
    assert Split(x, sep) == [h] + r[1..];
    assert Split(p, sep) == [h] + a[1..];
    ConsAppend(h, a[1..], b);
  }

  lemma AppendAssoc(a: string, b: string, c: string)
    ensures (a + b) + c == a + (b + c)
  {
  }

  lemma HeadTailOfAppend(a: seq<string>, b: seq<string>)
    requires a != []
    ensures (a + b)[0] == a[0] && (a + b)[1..] == a[1..] + b
  {
  }

  lemma ConsAppend(h: string, u: seq<string>, b: seq<string>)
    ensures [h] + (u + b) == ([h] + u) + b
  {
  }

  /** The id that `int(key.split('_')[part])` reads from a key, or None where Python raises. */
  function NamePart(key: string, part: nat): (r: Option<nat>)
  {
    var parts := Split(key, '_');
    if part < |parts| then ParseNat(parts[part]) else None
  }

  function SegmentName(k: nat): string { "segment_" + Decimal(k) }

  function ImplicitSegmentName(k: nat): string { "implicit_segment_" + Decimal(k) }

  function ContinuityName(n: nat): string { "continuity_node_" + Decimal(n) }

  const PoloidalCurrentName: string := "poloidal_current"

  const ToroidalCurrentName: string := "toroidal_current"

  lemma DigitsHaveNoUnderscore(s: string)
    requires AllDigits(s)
    ensures '_' !in s
  {
  }

  /** `segment_k` and `implicit_segment_k` give k back at the positions the source reads. */
  lemma SegmentNamesParse(k: nat)
    ensures NamePart(SegmentName(k), 1) == Some(k)
    ensures NamePart(ImplicitSegmentName(k), 2) == Some(k)
  {
    var d := Decimal(k);
    DigitsHaveNoUnderscore(d);
    SplitNoSeparator(d, '_');
    ParseDecimal(k);
    SegmentNameSplits(d);
    ImplicitNameSplits(d);
  }

  /** A word without separators followed by a separator splits off as the first piece. */
  lemma SplitAfterWord(w: string, y: string)
    requires '_' !in w
    ensures Split(w + ['_'] + y, '_') == [w] + Split(y, '_')
  {
    SplitNoSeparator(w, '_');
    SplitJoin(w, '_', y);
  }

  lemma SegmentNameSplits(d: string)
    requires Split(d, '_') == [d]
    ensures Split("segment_" + d, '_') == ["segment", d]
  {
    var w := "segment";
    SplitAfterWord(w, d);
    assert "segment_" == w + ['_'];
    assert "segment_" + d == w + ['_'] + d;
    assert [w] + [d] == ["segment", d];
  }

  lemma ImplicitNameSplits(d: string)
    requires Split(d, '_') == [d]
    ensures Split("implicit_segment_" + d, '_') == ["implicit", "segment", d]
  {
    var w, y := "implicit", "segment_" + d;
    SegmentNameSplits(d);
    assert "implicit_segment_" == (w + ['_']) + "segment_";
    AppendAssoc(w + ['_'], "segment_", d);
    SplitAfterWord(w, y);
    assert [w] + ["segment", d] == ["implicit", "segment", d];
  }

  /** No two reserved names coincide unless they are the same name for the same number. */
  lemma NamesDistinct(a: nat, b: nat)
    ensures SegmentName(a) == SegmentName(b) ==> a == b
    ensures ImplicitSegmentName(a) == ImplicitSegmentName(b) ==> a == b
    ensures ContinuityName(a) == ContinuityName(b) ==> a == b
    ensures SegmentName(a) != ImplicitSegmentName(b)
    ensures SegmentName(a) != ContinuityName(b)
    ensures ImplicitSegmentName(a) != ContinuityName(b)
    ensures SegmentName(a) != PoloidalCurrentName && SegmentName(a) != ToroidalCurrentName
    ensures ImplicitSegmentName(a) != PoloidalCurrentName && ImplicitSegmentName(a) != ToroidalCurrentName
    ensures ContinuityName(a) != PoloidalCurrentName && ContinuityName(a) != ToroidalCurrentName
  {
    if SegmentName(a) == SegmentName(b) {
      assert Decimal(a) == SegmentName(a)[8..];
      DecimalInjective(a, b);
    }
    if ImplicitSegmentName(a) == ImplicitSegmentName(b) {
      assert Decimal(a) == ImplicitSegmentName(a)[17..];
      DecimalInjective(a, b);
    }
    if ContinuityName(a) == ContinuityName(b) {
      assert Decimal(a) == ContinuityName(a)[16..];
      DecimalInjective(a, b);
    }
    assert SegmentName(a)[0] == 's' && ImplicitSegmentName(b)[0] == 'i' && ContinuityName(b)[0] == 'c';
    assert ImplicitSegmentName(a)[0] == 'i' && ContinuityName(a)[0] == 'c';
    assert SegmentName(a)[1] == 'e';
  }
}
