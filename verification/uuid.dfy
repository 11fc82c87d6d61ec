/** The version-4 UUID generator of src/lib/types/uuid.js: every `x` and `y` of
    the template `xxxxxxxx-xxxx-4xxx-yxxx-xxxxxxxxxxxx` is replaced, left to
    right, by one hexadecimal digit made from a fresh random nibble.  The
    nibbles (`Math.random() * 16 | 0`) are an input here.  The layout is the
    one of section 4.4 of RFC 4122: the version nibble 4 (section 4.1.3) and
    the variant bits 10 (section 4.1.1).
 */
module Uuid {
  import opened JsValues

  /** `Math.random() * 16 | 0`: an integer in 0..15. */
  type Nibble = n: nat | n < 16

  const Template: string := "xxxxxxxx-xxxx-4xxx-yxxx-xxxxxxxxxxxx"

  /** The digit value written for a placeholder: the nibble itself for `x`,
      `r & 0x3 | 0x8` for `y`. */
  function Digit(c: char, r: Nibble): (v: Nibble)
    ensures c == 'x' ==> v == r
    ensures c != 'x' ==> 8 <= v < 12 && v % 4 == r % 4
  {
    if c == 'x' then r else ((r as bv8 & 3) | 8) as nat
  }

  /** How many random nibbles a template consumes. */
  function Placeholders(t: string): nat {
    if t == [] then 0
    else (if t[0] == 'x' || t[0] == 'y' then 1 else 0) + Placeholders(t[1..])
  }

  /** `t.replace(/[xy]/g, c => Digit(c, r).toString(16))`, one nibble per
      placeholder. */
  function Fill(t: string, rs: seq<Nibble>): string
    requires |rs| == Placeholders(t)
  {
    if t == [] then ""
    else if t[0] == 'x' || t[0] == 'y' then ToHexString(Digit(t[0], rs[0])) + Fill(t[1..], rs[1..])
    else [t[0]] + Fill(t[1..], rs)
  }

  // ---------------------------------------------------------------------------
  // The shape of the result
  // ---------------------------------------------------------------------------

  predicate IsLowerHex(c: char) {
    ('0' <= c <= '9') || ('a' <= c <= 'f')
  }

  predicate IsDashPosition(i: int) {
    i == 8 || i == 13 || i == 18 || i == 23
  }

  /** `UUIDPattern`:
      eight, four, `4` and three, four and twelve lower-case hexadecimal
      digits, the groups separated by dashes. */
  predicate MatchesPattern(s: string) {
    |s| == 36 &&
    forall i :: 0 <= i < 36 ==>
      if IsDashPosition(i) then s[i] == '-'
      else if i == 14 then s[i] == '4'
      else IsLowerHex(s[i])
  }

  /** Where the `k`-th placeholder of the template sits. */
  function Position(k: nat): (i: nat)
    requires k < 31
    ensures i < 36 && !IsDashPosition(i) && i != 14
  {
    if k < 8 then k
    else if k < 12 then k + 1
    else if k < 15 then k + 3
    else if k < 19 then k + 4
    else k + 5
  }

  /** The hexadecimal digits of a run of nibbles. */
  function HexRun(rs: seq<Nibble>): (r: string)
    ensures |r| == |rs|
    ensures forall i :: 0 <= i < |rs| ==> r[i] == HexChar(rs[i])
  {
    seq(|rs|, i requires 0 <= i < |rs| => HexChar(rs[i]))
  }

  /** The generated identifier, group by group. */
  function Layout(rs: seq<Nibble>): string
    requires |rs| == 31
  {
    HexRun(rs[..8]) + ("-" + (HexRun(rs[8..12]) + ("-" + ("4" + (HexRun(rs[12..15])
    + ("-" + ([HexChar(Digit('y', rs[15]))] + (HexRun(rs[16..19]) + ("-" + HexRun(rs[19..]))))))))))
  }

  /** `uuid()` with the given random nibbles. */
  function Generate(rs: seq<Nibble>): (id: string)
    requires |rs| == 31
    ensures MatchesPattern(id)
    ensures id[19] in "89ab"
    ensures forall k :: 0 <= k < 31 && k != 15 ==> id[Position(k)] == HexChar(rs[k])
    ensures id[19] == HexChar(8 + rs[15] % 4)
  {
    TemplateLayout(rs);
    LayoutShape(rs);
    Fill(Template, rs)
  }

  lemma LayoutShape(rs: seq<Nibble>)
    requires |rs| == 31
    ensures MatchesPattern(Layout(rs))
    ensures Layout(rs)[19] in "89ab"
    ensures forall k :: 0 <= k < 31 && k != 15 ==> Layout(rs)[Position(k)] == HexChar(rs[k])
    ensures Layout(rs)[19] == HexChar(8 + rs[15] % 4)
  {
    LayoutChars(rs);
    var id := Layout(rs);
    forall i | 0 <= i < 36
      ensures if IsDashPosition(i) then id[i] == '-' else if i == 14 then id[i] == '4' else IsLowerHex(id[i])
    {
      assert id[i] == LayoutChar(rs, i);
    }
    forall k | 0 <= k < 31 && k != 15
      ensures id[Position(k)] == HexChar(rs[k])
    {
      assert id[Position(k)] == LayoutChar(rs, Position(k));
    }
    assert id[19] == LayoutChar(rs, 19);
  }

  /** The character the layout puts at position `i`. */
  function LayoutChar(rs: seq<Nibble>, i: nat): char
    requires |rs| == 31 && i < 36
  {
    if IsDashPosition(i) then '-'
    else if i == 14 then '4'
    else if i == 19 then HexChar(8 + rs[15] % 4)
    else if i < 8 then HexChar(rs[i])
    else if i < 13 then HexChar(rs[i - 1])
    else if i < 18 then HexChar(rs[i - 3])
    else if i < 23 then HexChar(rs[i - 4])
    else HexChar(rs[i - 5])
  }

  lemma LayoutChars(rs: seq<Nibble>)
    requires |rs| == 31
    ensures |Layout(rs)| == 36
    ensures forall i :: 0 <= i < 36 ==> Layout(rs)[i] == LayoutChar(rs, i)
  {
    var g5 := HexRun(rs[19..]);
    var p5 := "-" + g5;
    var g4 := HexRun(rs[16..19]);
    var p4 := [HexChar(Digit('y', rs[15]))] + (g4 + p5);
    var p3 := "-" + p4;
    var g3 := HexRun(rs[12..15]);
    var p2 := "-" + ("4" + (g3 + p3));
    var g2 := HexRun(rs[8..12]);
    var p1 := "-" + (g2 + p2);
    var g1 := HexRun(rs[..8]);
    assert Layout(rs) == g1 + p1;
    assert |p3| == 18 && |p2| == 23 && |p1| == 28;
    forall i | 0 <= i < 18
      ensures p3[i] == LayoutChar(rs, i + 18)
    {
      if i >= 6 {
        assert p3[i] == g5[i - 6];
      } else if 2 <= i < 5 {
        assert p3[i] == g4[i - 2];
      }
    }
    forall i | 0 <= i < 28
      ensures p1[i] == LayoutChar(rs, i + 8)
    {
      if i >= 10 {
        assert p1[i] == p3[i - 10];
      } else if 7 <= i < 10 {
        assert p1[i] == g3[i - 7];
      } else if i >= 1 && i < 5 {
        assert p1[i] == g2[i - 1];
      }
    }
  }

  /** Runs of `x` in the template. */
  function Xs(n: nat): (t: string)
    ensures |t| == n
  {
    seq(n, _ => 'x')
  }

  lemma {:induction false} PlaceholdersAppend(a: string, b: string)
    ensures Placeholders(a + b) == Placeholders(a) + Placeholders(b)
  {
    if a != [] {
      assert (a + b)[1..] == a[1..] + b;
      PlaceholdersAppend(a[1..], b);
    } else {
      assert a + b == b;
    }
  }

  lemma {:induction false} PlaceholdersXs(n: nat)
    ensures Placeholders(Xs(n)) == n
  {
    if n > 0 {
      assert Xs(n)[1..] == Xs(n - 1);
      PlaceholdersXs(n - 1);
    }
  }

  /** A run of `n` placeholders `x` takes the next `n` nibbles verbatim. */
  lemma {:induction false} FillXs(n: nat, t: string, rs: seq<Nibble>)
    requires |rs| == n + Placeholders(t)
    ensures Placeholders(Xs(n) + t) == |rs|
    ensures Fill(Xs(n) + t, rs) == HexRun(rs[..n]) + Fill(t, rs[n..])
  {
    PlaceholdersAppend(Xs(n), t);
    PlaceholdersXs(n);
    if n == 0 {
      assert Xs(0) + t == t;
      assert rs[0..] == rs;
    } else {
      var u := Xs(n) + t;
      assert u[1..] == Xs(n - 1) + t;
      FillX(u, rs);
      FillXs(n - 1, t, rs[1..]);
      assert rs[1..][n - 1..] == rs[n..];
      HexRunHead(rs, n);
    }
  }

  /** A leading placeholder `x` writes the first nibble as it is. */
  lemma FillX(u: string, rs: seq<Nibble>)
    requires u != [] && u[0] == 'x'
    requires |rs| == Placeholders(u)
    ensures |rs| > 0 && |rs[1..]| == Placeholders(u[1..])
    ensures Fill(u, rs) == [HexChar(rs[0])] + Fill(u[1..], rs[1..])
  {
    assert ToHexString(rs[0]) == [HexChar(rs[0])];
  }

  lemma HexRunHead(rs: seq<Nibble>, n: nat)
    requires 0 < n <= |rs|
    ensures HexRun(rs[..n]) == [HexChar(rs[0])] + HexRun(rs[1..][..n - 1])
  {
  }

  /** A fixed character is copied and consumes nothing. */
  lemma FillFixed(c: char, t: string, rs: seq<Nibble>)
    requires c != 'x' && c != 'y'
    requires |rs| == Placeholders(t)
    ensures Placeholders([c] + t) == |rs|
    ensures Fill([c] + t, rs) == [c] + Fill(t, rs)
  {
    assert ([c] + t)[1..] == t;
  }

  /** The `y` placeholder takes one nibble and writes its variant digit. */
  lemma FillY(t: string, rs: seq<Nibble>)
    requires |rs| == 1 + Placeholders(t)
    ensures Placeholders("y" + t) == |rs|
    ensures Fill("y" + t, rs) == [HexChar(Digit('y', rs[0]))] + Fill(t, rs[1..])
  {
    assert ("y" + t)[0] == 'y' && ("y" + t)[1..] == t;
  }

  /** The template, cut at its runs of `x`. */
  lemma TemplateParts()
    ensures Template == Xs(8) + ("-" + (Xs(4) + ("-" + ("4" + (Xs(3) + ("-" + ("y" + (Xs(3) + ("-" + Xs(12))))))))))
  {
  }

  /** The last two groups: `-yxxx-xxxxxxxxxxxx`. */
  lemma FillLastGroups(q: seq<Nibble>)
    requires |q| == 16
    ensures Placeholders("-" + ("y" + (Xs(3) + ("-" + Xs(12))))) == 16
    ensures Fill("-" + ("y" + (Xs(3) + ("-" + Xs(12)))), q)
      == "-" + ([HexChar(Digit('y', q[0]))] + (HexRun(q[1..4]) + ("-" + HexRun(q[4..]))))
  {
    var t5 := Xs(12);
    var p5 := "-" + t5;
    var t3 := Xs(3) + p5;
    var t2 := "y" + t3;
    FillLastGroup(q[4..]);
    FillFixed('-', t5, q[4..]);
    FillThirdGroup(q);
    FillY(t3, q);
    FillFixed('-', t2, q);
  }

  /** The last group: twelve placeholders take twelve nibbles. */
  lemma FillLastGroup(q5: seq<Nibble>)
    requires |q5| == 12
    ensures Placeholders(Xs(12)) == 12
    ensures Fill(Xs(12), q5) == HexRun(q5)
  {
    PlaceholdersXs(12);
    FillXs(12, "", q5);
    assert Xs(12) + "" == Xs(12);
    assert q5[..12] == q5;
    assert HexRun(q5) + "" == HexRun(q5);
  }

  /** The three placeholders after `y` take the nibbles 1 to 3. */
  lemma FillThirdGroup(q: seq<Nibble>)
    requires |q| == 16
    ensures Placeholders("-" + Xs(12)) == 12
    ensures Placeholders(Xs(3) + ("-" + Xs(12))) == 15
    ensures Fill(Xs(3) + ("-" + Xs(12)), q[1..]) == HexRun(q[1..4]) + Fill("-" + Xs(12), q[4..])
  {
    PlaceholdersXs(12);
    FillFixed('-', Xs(12), q[4..]);
    FillXs(3, "-" + Xs(12), q[1..]);
    assert q[1..][3..] == q[4..];
    assert q[1..][..3] == q[1..4];
  }

  /** The first three groups: `xxxxxxxx-xxxx-4xxx`, followed by the rest. */
  lemma FillFirstGroups(rs: seq<Nibble>, rest: string)
    requires |rs| == 15 + Placeholders(rest)
    ensures Placeholders(Xs(8) + ("-" + (Xs(4) + ("-" + ("4" + (Xs(3) + rest)))))) == |rs|
    ensures Fill(Xs(8) + ("-" + (Xs(4) + ("-" + ("4" + (Xs(3) + rest))))), rs)
      == HexRun(rs[..8]) + ("-" + (HexRun(rs[8..12]) + ("-" + ("4" + (HexRun(rs[12..15]) + Fill(rest, rs[15..]))))))
  {
    var q1 := rs[12..];
    FillXs(3, rest, q1);
    assert q1[..3] == rs[12..15] && q1[3..] == rs[15..];
    FillFixed('4', Xs(3) + rest, q1);
    FillFixed('-', "4" + (Xs(3) + rest), q1);
    var q0 := rs[8..];
    FillXs(4, "-" + ("4" + (Xs(3) + rest)), q0);
    assert q0[..4] == rs[8..12] && q0[4..] == q1;
    FillFixed('-', Xs(4) + ("-" + ("4" + (Xs(3) + rest))), q0);
    FillXs(8, "-" + (Xs(4) + ("-" + ("4" + (Xs(3) + rest)))), rs);
  }

  lemma TemplateLayout(rs: seq<Nibble>)
    requires |rs| == 31
    ensures Placeholders(Template) == 31
    ensures Fill(Template, rs) == Layout(rs)
  {
    var rest := "-" + ("y" + (Xs(3) + ("-" + Xs(12))));
    var tail := rs[15..];
    FillLastGroups(tail);
    assert Fill(rest, tail) == "-" + ([HexChar(Digit('y', rs[15]))] + (HexRun(rs[16..19]) + ("-" + HexRun(rs[19..])))) by {
      assert tail[0] == rs[15] && tail[1..4] == rs[16..19] && tail[4..] == rs[19..];
    }
    FillFirstGroups(rs, rest);
    TemplateParts();
  }

  // ---------------------------------------------------------------------------
  // Reading the nibbles back
  // ---------------------------------------------------------------------------

  /** The nibbles a pattern-shaped identifier was generated from. */
  function Nibbles(s: string): (rs: seq<Nibble>)
    requires MatchesPattern(s)
    ensures |rs| == 31
  {
    seq(31, k requires 0 <= k < 31 => HexValue(s[Position(k)]))
  }

  lemma LowerHexDigit(c: char)
    requires IsLowerHex(c)
    ensures HexChar(HexValue(c)) == c
  {
  }

  /** Every pattern-shaped string whose variant digit is one of `8`, `9`, `a`
      and `b` is a possible result: generating from its own nibbles rebuilds
      it.  Together with the contract of `Generate`, the results are exactly
      these strings. */
  lemma GenerateNibbles(s: string)
    requires MatchesPattern(s) && s[19] in "89ab"
    ensures Generate(Nibbles(s)) == s
  {
    var rs := Nibbles(s);
    var id := Generate(rs);
    forall i | 0 <= i < 36
      ensures id[i] == s[i]
    {
      if IsDashPosition(i) || i == 14 {
      } else if i == 19 {
        assert Position(15) == 19;
        assert HexValue(s[19]) % 4 + 8 == HexValue(s[19]);
      } else {
        var k := if i < 8 then i else if i < 13 then i - 1 else if i < 19 then i - 3
          else if i < 24 then i - 4 else i - 5;
        assert Position(k) == i;
        LowerHexDigit(s[i]);
      }
    }
  }

  /** Reading the nibbles back from a generated identifier gives the input,
      except for the variant nibble, which keeps only its two low bits. */
  lemma NibblesGenerate(rs: seq<Nibble>)
    requires |rs| == 31
    ensures Nibbles(Generate(rs)) == rs[15 := 8 + rs[15] % 4]
  {
    var id := Generate(rs);
    var back := Nibbles(id);
    forall k | 0 <= k < 31
      ensures back[k] == rs[15 := 8 + rs[15] % 4][k]
    {
      if k == 15 {
        assert Position(15) == 19;
      }
    }
  }
}
