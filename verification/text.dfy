/**
 * The Ruby string operations the exporter relies on: splitting on a
 * separator, joining, removing and replacing a character, the `[0..-3]`
 * slice, byte-wise comparison and decimal text. Most are written out on
 * `seq<char>`; joining, replacing and the slice are generic over the element
 * type, so that they also serve the binary response body.
 */
module Text {

  // ---------------------------------------------------------------------
  // Splitting and joining
  // ---------------------------------------------------------------------

  /** Every field of `s` between occurrences of `c`, empty fields included
      (`"a//b/"` gives `["a", "", "b", ""]`). */
  function Fields(s: string, c: char): (r: seq<string>)
    ensures |r| >= 1
    decreases |s|
  {
    if s == [] then [""]
    else
      var rest := Fields(s[1..], c);
      if s[0] == c then [""] + rest
      else [[s[0]] + rest[0]] + rest[1..]
  }

  /** No field holds the separator. */
  lemma {:induction false} FieldsPlain(s: string, c: char)
    ensures forall i :: 0 <= i < |Fields(s, c)| ==> c !in Fields(s, c)[i]
    decreases |s|
  {
    if s != [] {
      FieldsPlain(s[1..], c);
      var rest := Fields(s[1..], c);
      if s[0] != c {
        assert c !in [s[0]] + rest[0];
      }
    }
  }

  /** The parts with `sep` between each two of them. */
  function Join<T>(parts: seq<seq<T>>, sep: seq<T>): seq<T>
    decreases |parts|
  {
    if |parts| == 0 then []
    else if |parts| == 1 then parts[0]
    else parts[0] + sep + Join(parts[1..], sep)
  }

  /** `p` without its trailing run of empty strings. */
  function DropTrailingEmpty(p: seq<string>): (r: seq<string>)
    ensures |r| <= |p| && r == p[..|r|]
    ensures forall i :: |r| <= i < |p| ==> p[i] == ""
    ensures r == [] || r[|r| - 1] != ""
    decreases |p|
  {
    if p == [] then []
    else if p[|p| - 1] == "" then DropTrailingEmpty(p[..|p| - 1])
    else p
  }

  /** Ruby's `s.split(c)` for a one-character separator other than a space:
      interior and leading empty fields are kept, trailing ones dropped. */
  function Split(s: string, c: char): seq<string>
  {
    DropTrailingEmpty(Fields(s, c))
  }

  /** `s` with every trailing `c` removed. */
  function TrimEnd(s: string, c: char): (r: string)
    ensures |r| <= |s| && r == s[..|r|]
    ensures r == [] || r[|r| - 1] != c
    ensures forall i :: |r| <= i < |s| ==> s[i] == c
    decreases |s|
  {
    if s != [] && s[|s| - 1] == c then TrimEnd(s[..|s| - 1], c) else s
  }

  /** `n` copies of the character `c`. */
  function Repeat(c: char, n: nat): (r: string)
    ensures |r| == n && forall i :: 0 <= i < n ==> r[i] == c
  {
    seq(n, _ => c)
  }

  lemma {:induction false} FieldsJoin(s: string, c: char)
    ensures Join(Fields(s, c), [c]) == s
    decreases |s|
  {
    if s != [] {
      var rest := Fields(s[1..], c);
      FieldsJoin(s[1..], c);
      if s[0] == c {
        assert Join([""] + rest, [c]) == "" + [c] + Join(rest, [c]);
      } else {
        var p := [[s[0]] + rest[0]] + rest[1..];
        if |rest| == 1 {
          assert Join(rest, [c]) == rest[0];
        } else {
          assert p[1..] == rest[1..];
          assert Join(rest, [c]) == rest[0] + [c] + Join(rest[1..], [c]);
          assert Join(p, [c]) == [s[0]] + rest[0] + [c] + Join(rest[1..], [c]);
        }
        assert s == [s[0]] + s[1..];
      }
    }
  }

  lemma {:induction false} FieldsOfPlain(s: string, c: char)
    requires c !in s
    ensures Fields(s, c) == [s]
    decreases |s|
  {
    if s != [] {
      FieldsOfPlain(s[1..], c);
      assert s == [s[0]] + s[1..];
    }
  }

  /** Splitting distributes over a separator occurrence. */
  lemma {:induction false} FieldsAround(a: string, b: string, c: char)
    ensures Fields(a + [c] + b, c) == Fields(a, c) + Fields(b, c)
    decreases |a|
  {
    var s := a + [c] + b;
    if a == [] {
      assert s == [c] + b;
      FieldsStep(c, b, c);
    } else {
      var t := a[1..] + [c] + b;
      FieldsAround(a[1..], b, c);
      assert s == [a[0]] + t;
      assert a == [a[0]] + a[1..];
      FieldsStep(a[0], t, c);
      FieldsStep(a[0], a[1..], c);
      var ra := Fields(a[1..], c);
      var rb := Fields(b, c);
      if a[0] != c {
        MergeHead([a[0]], ra, rb);
      } else {
        AppendAssoc([""], ra, rb);
      }
    }
  }

  /** `Fields` on a text given as its first character and the rest. */
  lemma FieldsStep(x: char, t: string, c: char)
    ensures Fields([x] + t, c) ==
            if x == c then [""] + Fields(t, c) else [[x] + Fields(t, c)[0]] + Fields(t, c)[1..]
  {
    assert ([x] + t)[0] == x && ([x] + t)[1..] == t;
  }

  /** Gluing `x` onto the first field commutes with appending more fields. */
  lemma MergeHead(x: string, p: seq<string>, q: seq<string>)
    requires |p| >= 1
    ensures [x + (p + q)[0]] + (p + q)[1..] == ([x + p[0]] + p[1..]) + q
  {
    assert (p + q)[0] == p[0];
    assert (p + q)[1..] == p[1..] + q;
  }

  lemma AppendAssoc(p: seq<string>, q: seq<string>, r: seq<string>)
    ensures p + (q + r) == (p + q) + r
  {
  }

  /** Joining parts that contain no separator and splitting again gives the
      parts back. */
  lemma {:induction false} JoinFields(parts: seq<string>, c: char)
    requires |parts| >= 1
    requires forall i :: 0 <= i < |parts| ==> c !in parts[i]
    ensures Fields(Join(parts, [c]), c) == parts
    decreases |parts|
  {
    if |parts| == 1 {
      FieldsOfPlain(parts[0], c);
    } else {
      JoinFields(parts[1..], c);
      FieldsOfPlain(parts[0], c);
      FieldsAround(parts[0], Join(parts[1..], [c]), c);
      assert parts[0] + [c] + Join(parts[1..], [c]) == Join(parts, [c]);
      assert [parts[0]] + parts[1..] == parts;
    }
  }

  /** The last field is empty exactly when the text is empty or ends in the
      separator. */
  lemma {:induction false} LastFieldEmpty(s: string, c: char)
    ensures var f := Fields(s, c); f[|f| - 1] == "" <==> (s == [] || s[|s| - 1] == c)
    decreases |s|
  {
    if s != [] {
      LastFieldEmpty(s[1..], c);
      var rest := Fields(s[1..], c);
      if s[0] != c && |rest| == 1 {
        assert Fields(s, c) == [[s[0]] + rest[0]];
      }
    }
  }

  lemma {:induction false} JoinAppendEmpties(p: seq<string>, n: nat, c: char)
    requires |p| >= 1
    ensures Join(p + seq(n, _ => ""), [c]) == Join(p, [c]) + Repeat(c, n)
    decreases n
  {
    if n > 0 {
      var e := seq(n - 1, _ => "");
      JoinAppendEmpties(p, n - 1, c);
      assert p + seq(n, _ => "") == (p + e) + [""];
      JoinSnoc(p + e, "", [c]);
      assert Repeat(c, n) == Repeat(c, n - 1) + [c];
    } else {
      assert p + seq(n, _ => "") == p;
    }
  }

  /** A join of a non-empty list ends with the last part. */
  lemma {:induction false} JoinEndsWithLast(p: seq<string>, sep: string)
    requires |p| >= 1
    ensures var j := Join(p, sep); |j| >= |p[|p| - 1]| && j[|j| - |p[|p| - 1]|..] == p[|p| - 1]
    decreases |p|
  {
    if |p| > 1 {
      JoinEndsWithLast(p[1..], sep);
    }
  }

  /** Joining one more part adds the separator and that part. */
  lemma {:induction false} JoinSnoc<T>(p: seq<seq<T>>, x: seq<T>, sep: seq<T>)
    requires |p| >= 1
    ensures Join(p + [x], sep) == Join(p, sep) + sep + x
    decreases |p|
  {
    if |p| > 1 {
      JoinSnoc(p[1..], x, sep);
      assert (p + [x])[1..] == p[1..] + [x];
    } else {
      assert (p + [x])[1..] == [x];
    }
  }

  lemma {:induction false} TrimEndOfSuffix(a: string, c: char, n: nat)
    requires a == [] || a[|a| - 1] != c
    ensures TrimEnd(a + Repeat(c, n), c) == a
    decreases n
  {
    var s := a + Repeat(c, n);
    if n == 0 {
      assert s == a;
    } else {
      assert s[|s| - 1] == c;
      assert s[..|s| - 1] == a + Repeat(c, n - 1);
      TrimEndOfSuffix(a, c, n - 1);
    }
  }

  // ---------------------------------------------------------------------
  // gsub and slices
  // ---------------------------------------------------------------------

  /** `s.gsub(/c/, t)`: `s` with every `c` replaced by `t`. */
  function ReplaceAll<T(==)>(s: seq<T>, c: T, t: seq<T>): (r: seq<T>)
    ensures c !in t ==> c !in r
    decreases |s|
  {
    if s == [] then []
    else if s[0] == c then t + ReplaceAll(s[1..], c, t)
    else [s[0]] + ReplaceAll(s[1..], c, t)
  }

  lemma {:induction false} ReplaceAllAppend<T>(a: seq<T>, b: seq<T>, c: T, t: seq<T>)
    ensures ReplaceAll(a + b, c, t) == ReplaceAll(a, c, t) + ReplaceAll(b, c, t)
    decreases |a|
  {
    if a == [] {
      assert a + b == b;
    } else {
      ReplaceAllAppend(a[1..], b, c, t);
      assert (a + b)[0] == a[0];
      assert (a + b)[1..] == a[1..] + b;
      var head := if a[0] == c then t else [a[0]];
      calc {
        ReplaceAll(a + b, c, t);
        head + ReplaceAll(a[1..] + b, c, t);
        head + (ReplaceAll(a[1..], c, t) + ReplaceAll(b, c, t));
        (head + ReplaceAll(a[1..], c, t)) + ReplaceAll(b, c, t);
      }
    }
  }

  lemma {:induction false} ReplaceAllPlain<T>(s: seq<T>, c: T, t: seq<T>)
    requires c !in s
    ensures ReplaceAll(s, c, t) == s
    decreases |s|
  {
    if s != [] {
      ReplaceAllPlain(s[1..], c, t);
      assert s == [s[0]] + s[1..];
    }
  }

  /** Ruby's `s[0..-3]`: all but the last two elements (characters, or bytes
      of a binary string), and empty when `s` has fewer than two. */
  function DropLastTwo<T>(s: seq<T>): (r: seq<T>)
    ensures |s| >= 2 ==> |r| == |s| - 2 && s == r + s[|s| - 2..]
    ensures |s| < 2 ==> r == []
  {
    if |s| >= 2 then s[..|s| - 2] else []
  }

  /** The two elements cut come from the second part when it has two. */
  lemma DropLastTwoAppend<T>(a: seq<T>, b: seq<T>)
    requires |b| >= 2
    ensures DropLastTwo(a + b) == a + DropLastTwo(b)
  {
    assert (a + b)[..|a + b| - 2] == a + b[..|b| - 2];
  }

  // ---------------------------------------------------------------------
  // Comparison and decimal text
  // ---------------------------------------------------------------------

  /** Ruby's `a <= b` on strings: byte-wise lexicographic order, a proper
      prefix coming first. */
  predicate LexLe(a: string, b: string)
    decreases |a|
  {
    if a == [] then true
    else if b == [] then false
    else if a[0] != b[0] then a[0] < b[0]
    else LexLe(a[1..], b[1..])
  }

  /** When two strings start with prefixes of the same length, comparing them
      compares the prefixes first and the rest only on a tie. */
  lemma {:induction false} LexLeAppend(a: string, b: string, c: string, d: string)
    requires |a| == |c|
    ensures LexLe(a + b, c + d) == if a == c then LexLe(b, d) else LexLe(a, c)
    decreases |a|
  {
    if a == [] {
      assert a + b == b && c + d == d;
    } else {
      assert (a + b)[0] == a[0] && (c + d)[0] == c[0];
      assert (a + b)[1..] == a[1..] + b && (c + d)[1..] == c[1..] + d;
      LexLeAppend(a[1..], b, c[1..], d);
      if a[0] == c[0] {
        assert a == c <==> a[1..] == c[1..];
      }
    }
  }

  /** Strings that agree up to `k` and differ at `k` compare as their
      characters at `k` do. */
  lemma {:induction false} LexLeFirstDiff(a: string, b: string, k: nat)
    requires k < |a| && k < |b| && a[..k] == b[..k] && a[k] != b[k]
    ensures LexLe(a, b) <==> a[k] < b[k]
    decreases k
  {
    if k > 0 {
      assert a[0] == a[..k][0] && b[0] == b[..k][0];
      assert a[1..][..k - 1] == a[..k][1..] && b[1..][..k - 1] == b[..k][1..];
      LexLeFirstDiff(a[1..], b[1..], k - 1);
    }
  }

  function Pow10(w: nat): (r: nat)
    ensures r >= 1
  {
    if w == 0 then 1 else 10 * Pow10(w - 1)
  }

  function DigitChar(k: nat): (r: char)
    requires k < 10
    ensures '0' <= r <= '9'
  {
    ('0' as int + k) as char
  }

  predicate IsDigits(s: string)
  {
    forall i :: 0 <= i < |s| ==> '0' <= s[i] <= '9'
  }

  /** The last `w` decimal digits of `n`, zero-padded: `Digits(9, 2) == "09"`. */
  function Digits(n: nat, w: nat): (r: string)
    ensures |r| == w && IsDigits(r)
  {
    if w == 0 then "" else Digits(n / 10, w - 1) + [DigitChar(n % 10)]
  }

  /** Ruby's `Integer#to_s` for a non-negative integer. */
  function Natural(n: nat): (r: string)
    ensures |r| >= 1 && IsDigits(r)
    ensures n >= 10 ==> r[0] != '0'
  {
    if n < 10 then [DigitChar(n)] else Natural(n / 10) + [DigitChar(n % 10)]
  }

  /** Ruby's `Integer#to_s`. */
  function Decimal(n: int): (r: string)
    ensures |r| >= 1
    ensures forall i :: 0 <= i < |r| ==> r[i] == '-' || '0' <= r[i] <= '9'
  {
    if n < 0 then "-" + Natural(-n) else Natural(n)
  }

  /** Zero-padded digit strings of one width order as the numbers they spell,
      and spell the same number only when equal. */
  lemma {:induction false} DigitsOrder(n: nat, m: nat, w: nat)
    requires n < Pow10(w) && m < Pow10(w)
    ensures Digits(n, w) == Digits(m, w) <==> n == m
    ensures LexLe(Digits(n, w), Digits(m, w)) <==> n <= m
    decreases w
  {
    if w > 0 {
      var q, r, q', r' := n / 10, n % 10, m / 10, m % 10;
      assert n == 10 * q + r && m == 10 * q' + r';
      DigitsOrder(q, q', w - 1);
      var a, c := Digits(q, w - 1), Digits(q', w - 1);
      LexLeAppend(a, [DigitChar(r)], c, [DigitChar(r')]);
      assert LexLe([DigitChar(r)], [DigitChar(r')]) <==> r <= r';
      if a + [DigitChar(r)] == c + [DigitChar(r')] {
        assert a == (a + [DigitChar(r)])[..w - 1];
        assert c == (c + [DigitChar(r')])[..w - 1];
        assert DigitChar(r) == (a + [DigitChar(r)])[w - 1];
      }
    } else {
      assert n == 0 && m == 0;
    }
  }
}
