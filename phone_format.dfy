/**
 * `formatPhoneNumber` of app/utils/misc.ts: the decimal rendering of a number is
 * poured, digit by digit, into the `#` placeholders of a template.
 */
module PhoneFormat {
  import opened Decimal

  const Placeholder: char := '#'
  const InvalidPhoneNumber: string := "Invalid phone number"

  /** Number of placeholders in `s`. */
  function HashCount(s: string): nat {
    if s == [] then 0 else (if s[0] == Placeholder then 1 else 0) + HashCount(s[1..])
  }

  /**
   * The template after the replace step: every placeholder, left to right, takes
   * the next character of `digits` starting at offset `i`; a placeholder found
   * after the digits are used up is put back unchanged.
   */
  function Fill(digits: string, template: string, i: nat): (r: string)
    ensures |r| == |template|
  {
    if template == [] then []
    else if template[0] == Placeholder then
      [if i < |digits| then digits[i] else Placeholder] + Fill(digits, template[1..], i + 1)
    else
      [template[0]] + Fill(digits, template[1..], i)
  }

  /**
   * The whole function: the filled template, or the error text if a placeholder
   * is left; a filled result is as long as the template and holds no placeholder.
   */
  function Format(n: nat, template: string, i: nat): (r: string)
    ensures r == InvalidPhoneNumber || (|r| == |template| && Placeholder !in r)
  {
    var filled := Fill(Show(n), template, i);
    if Placeholder in filled then InvalidPhoneNumber else filled
  }

  /**
   * The source's loop: the replace callback runs once per placeholder and advances
   * the counter `i`; the result is then searched for a placeholder.
   */
  method FormatPhoneNumber(n: nat, template: string, i: nat) returns (r: string)
    ensures r == Format(n, template, i)
  {
    var digits := Show(n);
    var next: nat := i;
    var result := "";
    var k := 0;
    while k < |template|
      invariant 0 <= k <= |template|
      invariant result + Fill(digits, template[k..], next) == Fill(digits, template, i)
    {
      var c := template[k];
      var after := next;
      if c == Placeholder {
        c := if next < |digits| then digits[next] else Placeholder;
        after := next + 1;
      }
      assert template[k..][1..] == template[k + 1..];
      assert Fill(digits, template[k..], next) == [c] + Fill(digits, template[k + 1..], after);
      result, next, k := result + [c], after, k + 1;
    }
    assert template[k..] == [];
    assert result == Fill(digits, template, i);
    if Placeholder in result {
      r := InvalidPhoneNumber;
    } else {
      r := result;
    }
  }

  lemma {:induction false} HashCountPrefix(t: string, k: nat)
    requires 0 < k <= |t|
    ensures HashCount(t[..k]) == (if t[0] == Placeholder then 1 else 0) + HashCount(t[1..][..k - 1])
  {
    assert t[..k][1..] == t[1..][..k - 1];
  }

  /**
   * Position `k` of the filled template: a non-placeholder is copied, and the
   * placeholder preceded by `h` others takes digit `i + h`, or stays `#` when
   * there is no such digit.
   */
  lemma {:induction false} FillAt(digits: string, t: string, i: nat, k: nat)
    requires k < |t|
    ensures Fill(digits, t, i)[k] ==
      if t[k] != Placeholder then t[k]
      else if i + HashCount(t[..k]) < |digits| then digits[i + HashCount(t[..k])]
      else Placeholder
  {
    if k > 0 {
      HashCountPrefix(t, k);
      FillAt(digits, t[1..], if t[0] == Placeholder then i + 1 else i, k - 1);
    }
  }

  /** With digits free of `#`, a placeholder is left exactly when the digits run out. */
  lemma {:induction false} FillLeavesPlaceholder(digits: string, t: string, i: nat)
    requires Placeholder !in digits
    ensures Placeholder in Fill(digits, t, i) <==> HashCount(t) > 0 && i + HashCount(t) > |digits|
  {
    if t != [] {
      var r := Fill(digits, t, i);
      var j := if t[0] == Placeholder then i + 1 else i;
      FillLeavesPlaceholder(digits, t[1..], j);
      assert r == [r[0]] + Fill(digits, t[1..], j);
    }
  }

  /**
   * The outcome of `formatPhoneNumber`: the error text exactly when the template
   * has more placeholders than there are digits from offset `i` on; otherwise a
   * string as long as the template, with no `#`, every other character in place
   * and the placeholders filled left to right from offset `i`. Surplus digits
   * are ignored.
   */
  lemma FormatOutcome(n: nat, t: string, i: nat)
    ensures var r := Format(n, t, i);
      if HashCount(t) > 0 && i + HashCount(t) > |Show(n)| then r == InvalidPhoneNumber
      else
        && |r| == |t|
        && Placeholder !in r
        && (forall k :: 0 <= k < |t| && t[k] != Placeholder ==> r[k] == t[k])
        && (forall k :: 0 <= k < |t| && t[k] == Placeholder ==>
              i + HashCount(t[..k]) < |Show(n)| && r[k] == Show(n)[i + HashCount(t[..k])])
  {
    var digits := Show(n);
    forall j | 0 <= j < |digits| ensures digits[j] != Placeholder {
      assert IsDigit(digits[j]);
    }
    FillLeavesPlaceholder(digits, t, i);
    forall k | 0 <= k < |t|
      ensures Fill(digits, t, i)[k] == if t[k] != Placeholder then t[k]
        else if i + HashCount(t[..k]) < |digits| then digits[i + HashCount(t[..k])] else Placeholder
    {
      FillAt(digits, t, i, k);
    }
    if !(HashCount(t) > 0 && i + HashCount(t) > |digits|) {
      forall k | 0 <= k < |t| && t[k] == Placeholder
        ensures i + HashCount(t[..k]) < |digits|
      {
        HashCountBelow(t, k);
      }
    }
  }

  /** A placeholder at `k` is preceded by fewer placeholders than the whole template holds. */
  lemma {:induction false} HashCountBelow(t: string, k: nat)
    requires k < |t| && t[k] == Placeholder
    ensures HashCount(t[..k]) < HashCount(t)
  {
    if k > 0 {
      HashCountPrefix(t, k);
      HashCountBelow(t[1..], k - 1);
    }
  }

  lemma {:induction false} HashCountAppend(a: string, b: string)
    ensures HashCount(a + b) == HashCount(a) + HashCount(b)
  {
    if a == [] {
      assert a + b == b;
    } else {
      assert (a + b)[1..] == a[1..] + b;
      HashCountAppend(a[1..], b);
    }
  }

  /**
   * The counter is threaded through the template: filling `a + b` fills `a`, then
   * fills `b` from the offset advanced by the placeholders of `a`.
   */
  lemma {:induction false} FillAppend(digits: string, a: string, b: string, i: nat)
    ensures Fill(digits, a + b, i) == Fill(digits, a, i) + Fill(digits, b, i + HashCount(a))
  {
    if a == [] {
      assert a + b == b;
    } else {
      assert (a + b)[1..] == a[1..] + b;
      FillAppend(digits, a[1..], b, if a[0] == Placeholder then i + 1 else i);
    }
  }

  /** The documented example: 12025550171 in "+# (###) ###-####" gives "+1 (202) 555-0171". */
  lemma FormatExample()
    ensures Format(12025550171, "+# (###) ###-####", 0) == "+1 (202) 555-0171"
  {
    ShowExample();
    FillExample("12025550171", "+#", " (###)", " ###", "-####", "+# (###) ###-####", "+1 (202) 555-0171");
    FormatOfFill(12025550171, "+# (###) ###-####", "12025550171", "+1 (202) 555-0171");
  }

  lemma FormatOfFill(n: nat, t: string, d: string, e: string)
    requires Show(n) == d && Fill(d, t, 0) == e && e == "+1 (202) 555-0171"
    ensures Format(n, t, 0) == e
  {
  }

  // The example is computed piece by piece, on variables rather than literals, so
  // that the solver does not unfold `Fill` over the whole template at once.

  lemma ShowExample()
    ensures Show(12025550171) == "12025550171"
  {
    assert Show(1) == "1";
    assert Show(12) == "12";
    assert Show(120) == "120";
    assert Show(1202) == "1202";
    assert Show(12025) == "12025";
    assert Show(120255) == "120255";
    assert Show(1202555) == "1202555";
    assert Show(12025550) == "12025550";
    assert Show(120255501) == "120255501";
    assert Show(1202555017) == "1202555017";
  }

  lemma FillExample(d: string, p1: string, p2: string, p3: string, p4: string, t: string, e: string)
    requires d == "12025550171" && t == "+# (###) ###-####" && e == "+1 (202) 555-0171"
    requires p1 == "+#" && p2 == " (###)" && p3 == " ###" && p4 == "-####"
    ensures Fill(d, t, 0) == e
  {
    FillPiece1(d, p1);
    FillPiece2(d, p2);
    FillPiece3(d, p3);
    FillPiece4(d, p4);
    FillAppend(d, p1, p2, 0);
    HashCountAppend(p1, p2);
    FillAppend(d, p1 + p2, p3, 0);
    HashCountAppend(p1 + p2, p3);
    FillAppend(d, p1 + p2 + p3, p4, 0);
    PiecesExample(p1, p2, p3, p4, t, e);
  }

  lemma PiecesExample(p1: string, p2: string, p3: string, p4: string, t: string, e: string)
    requires t == "+# (###) ###-####" && e == "+1 (202) 555-0171"
    requires p1 == "+#" && p2 == " (###)" && p3 == " ###" && p4 == "-####"
    ensures t == p1 + p2 + p3 + p4 && e == "+1" + " (202)" + " 555" + "-0171"
  {
  }

  lemma FillPiece1(d: string, p: string)
    requires d == "12025550171" && p == "+#"
    ensures Fill(d, p, 0) == "+1" && HashCount(p) == 1
  {
    assert Fill("12025550171", "+#", 0) == "+1";
    assert HashCount("+#") == 1;
  }

  lemma FillPiece2(d: string, p: string)
    requires d == "12025550171" && p == " (###)"
    ensures Fill(d, p, 1) == " (202)" && HashCount(p) == 3
  {
    assert Fill("12025550171", " (###)", 1) == " (202)";
    assert HashCount(" (###)") == 3;
  }

  lemma FillPiece3(d: string, p: string)
    requires d == "12025550171" && p == " ###"
    ensures Fill(d, p, 4) == " 555" && HashCount(p) == 3
  {
    assert Fill("12025550171", " ###", 4) == " 555";
    assert HashCount(" ###") == 3;
  }

  lemma FillPiece4(d: string, p: string)
    requires d == "12025550171" && p == "-####"
    ensures Fill(d, p, 7) == "-0171"
  {
    assert Fill("12025550171", "-####", 7) == "-0171";
  }
}
