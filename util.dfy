/** The helpers of utilitaires.py that the ledger uses: the password digest (as a
    parameter), the conversion of whole dollars to cents, and the formatting of an
    amount in cents for display. */
module Util {

  datatype Option<T> = None | Some(value: T)

  /** hacher_mot_de_passe. SHA-256 is not modelled: every operation that hashes a
      password receives the digest function as a parameter and relies on nothing
      about it beyond being a function. */
  type Hasher = string -> string

  /** convertir_dollars_vers_centimes, on whole dollars: the result is an exact
      number of cents, and dividing it back by 100 gives the dollars again. */
  function DollarsToCents(dollars: int): (cents: int)
    ensures cents % 100 == 0 && cents / 100 == dollars
  {
    dollars * 100
  }

  // ---------------------------------------------------------------------------
  // Decimal digits

  predicate IsDigit(c: char) { '0' <= c <= '9' }

  predicate AllDigits(s: string) { forall i :: 0 <= i < |s| ==> IsDigit(s[i]) }

  function DigitValue(c: char): int { c as int - '0' as int }

  function DigitChar(d: nat): (c: char)
    requires d < 10
    ensures IsDigit(c) && DigitValue(c) == d
  {
    ('0' as int + d) as char
  }

  /** The decimal digits of k, most significant first, with no leading zero:
      Python's str(k) for k >= 0. */
  function Digits(k: nat): (s: string)
    ensures |s| >= 1 && AllDigits(s)
    ensures k > 0 ==> s[0] != '0'
  {
    if k < 10 then [DigitChar(k)] else Digits(k / 10) + [DigitChar(k % 10)]
  }

  /** The number a string of digits denotes. */
  function ValueOf(s: string): int
  {
    if s == [] then 0 else 10 * ValueOf(s[..|s| - 1]) + DigitValue(s[|s| - 1])
  }

  /** Digits loses nothing: reading the digits back gives the number. */
  lemma {:induction false} ValueOfDigits(k: nat)
    ensures ValueOf(Digits(k)) == k
  {
    if k >= 10 {
      var s := Digits(k);
      assert s[..|s| - 1] == Digits(k / 10);
      ValueOfDigits(k / 10);
    }
  }

  /** Python's str(d) for any integer d. */
  function Plain(d: int): string
  {
    if d < 0 then "-" + Digits(-d) else Digits(d)
  }

  // ---------------------------------------------------------------------------
  // Thousands grouping (the "," option of a Python format specification)

  /** s with a comma inserted before every group of three characters counted
      from the right. */
  function Group(s: string): string
  {
    if |s| <= 3 then s else Group(s[..|s| - 3]) + "," + s[|s| - 3..]
  }

  /** s with every occurrence of c removed. */
  function Drop(s: string, c: char): string
  {
    if s == [] then [] else (if s[0] == c then [] else [s[0]]) + Drop(s[1..], c)
  }

  /** Drop leaves a string without c as it is. */
  lemma {:induction false} DropAbsent(s: string, c: char)
    requires c !in s
    ensures Drop(s, c) == s
  {
    if s != [] {
      assert c !in s[1..];
      DropAbsent(s[1..], c);
    }
  }

  lemma {:induction false} DropAppend(a: string, b: string, c: char)
    ensures Drop(a + b, c) == Drop(a, c) + Drop(b, c)
  {
    if a == [] {
      assert a + b == b;
    } else {
      assert (a + b)[0] == a[0];
      assert (a + b)[1..] == a[1..] + b;
      DropAppend(a[1..], b, c);
    }
  }

  lemma NoCommaInDigits(s: string)
    requires AllDigits(s)
    ensures ',' !in s && Drop(s, ',') == s
  {
    forall i | 0 <= i < |s| ensures s[i] != ',' { assert IsDigit(s[i]); }
    DropAbsent(s, ',');
  }

  /** Grouping a string of digits: the result is |s| + (|s| - 1) / 3 long, holds a
      comma exactly at the positions 3, 7, 11, ... counted from the right end
      (from 0), and gives back s once the commas are removed. */
  lemma GroupShape(s: string)
    requires |s| >= 1 && AllDigits(s)
    ensures var g := Group(s);
      && |g| == |s| + (|s| - 1) / 3
      && (forall i :: 0 <= i < |g| ==> (g[i] == ',' <==> (|g| - 1 - i) % 4 == 3))
      && Drop(g, ',') == s
  {
    GroupLength(s);
    GroupCommas(s);
    GroupDrop(s);
  }

  lemma {:induction false} GroupLength(s: string)
    requires |s| >= 1
    ensures |Group(s)| == |s| + (|s| - 1) / 3
  {
    if |s| > 3 {
      GroupLength(s[..|s| - 3]);
    }
  }

  lemma {:induction false} GroupCommas(s: string)
    requires |s| >= 1 && AllDigits(s)
    ensures forall i :: 0 <= i < |Group(s)| ==> (Group(s)[i] == ',' <==> (|Group(s)| - 1 - i) % 4 == 3)
  {
    var g := Group(s);
    if |s| > 3 {
      var p, t := s[..|s| - 3], s[|s| - 3..];
      assert AllDigits(p);
      GroupCommas(p);
      var gp := Group(p);
      assert g == gp + "," + t;
      forall i | 0 <= i < |g| ensures g[i] == ',' <==> (|g| - 1 - i) % 4 == 3 {
        var j := |g| - 1 - i;
        if i < |gp| {
          assert g[i] == gp[i];
          assert j == (|gp| - 1 - i) + 4;
          assert gp[i] == ',' <==> (|gp| - 1 - i) % 4 == 3;
          assert j % 4 == (|gp| - 1 - i) % 4;
        } else if i > |gp| {
          assert g[i] == s[|s| - 3 + (i - |gp| - 1)];
          assert IsDigit(s[|s| - 3 + (i - |gp| - 1)]);
          assert 0 <= j < 3;
        } else {
          assert g[i] == ',' && j == 3;
        }
      }
    } else {
      forall i | 0 <= i < |g| ensures g[i] == ',' <==> (|g| - 1 - i) % 4 == 3 {
        assert IsDigit(s[i]);
      }
    }
  }

  lemma DigitsSplit(s: string, k: nat)
    requires AllDigits(s) && k <= |s|
    ensures AllDigits(s[..k]) && AllDigits(s[k..]) && s == s[..k] + s[k..]
  {
  }

  lemma {:induction false} GroupDrop(s: string)
    requires AllDigits(s)
    ensures Drop(Group(s), ',') == s
  {
    if |s| > 3 {
      var p, t := s[..|s| - 3], s[|s| - 3..];
      DigitsSplit(s, |s| - 3);
      var gp := Group(p);
      assert Drop(Group(s), ',') == Drop(gp, ',') + Drop(",", ',') + Drop(t, ',') by {
        assert Group(s) == gp + ("," + t);
        DropAppend(gp, "," + t, ',');
        DropAppend(",", t, ',');
      }
      assert Drop(",", ',') == [];
      NoCommaInDigits(t);
      GroupDrop(p);
      assert s == p + t;
    } else {
      NoCommaInDigits(s);
    }
  }

  /** An integer written as Python's "{:,}" writes it: sign, then grouped digits. */
  function Grouped(d: int): string
  {
    (if d < 0 then "-" else "") + Group(Digits(if d < 0 then -d else d))
  }

  lemma GroupedPlain(d: int)
    ensures Drop(Grouped(d), ',') == Plain(d)
  {
    var k := if d < 0 then -d else d;
    GroupShape(Digits(k));
    DropAppend(if d < 0 then "-" else "", Group(Digits(k)), ',');
  }

  // ---------------------------------------------------------------------------
  // formater_argent

  /** Python's divmod(n, 100): floor quotient and a remainder in [0, 100), for
      negative amounts too. */
  function Split(n: int): (dc: (int, int))
    ensures 0 <= dc.1 < 100 && n == 100 * dc.0 + dc.1
  {
    (n / 100, n % 100)
  }

  /** The grouped form of an integer is never empty and holds no point. */
  lemma GroupedNoPoint(d: int)
    ensures |Grouped(d)| >= 1 && '.' !in Grouped(d)
  {
    var k := if d < 0 then -d else d;
    var gs := Group(Digits(k));
    GroupShape(Digits(k));
    forall i | 0 <= i < |gs| ensures gs[i] != '.' {
      if gs[i] != ',' {
        assert gs[i] in Drop(gs, ',') by {
          DropKeeps(gs, ',', i);
        }
        assert gs[i] in Digits(k);
      }
    }
    assert Grouped(d) == (if d < 0 then "-" else "") + gs;
  }

  /** formater_argent as written: the dollars are an int, so the ".2f"
      branch always prints ".00" and the cents never appear. The output always
      ends with " $", and it holds a decimal point exactly when the amount is
      not a whole number of dollars. */
  function FormatMoney(n: int): (r: string)
    ensures |r| >= 3 && r[|r| - 2..] == " $"
    ensures '.' in r <==> n % 100 != 0
  {
    var (dollars, cents) := Split(n);
    GroupedNoPoint(dollars);
    var g := Grouped(dollars);
    if cents != 0 then
      assert (g + ".00 $")[|g|] == '.';
      g + ".00 $"
    else
      g + " $"
  }

  /** The layout of a formatted amount: the grouped floor dollars, then ".00 $"
      when there are cents and " $" when there are none. */
  lemma FormatMoneyLayout(n: int)
    ensures var r := FormatMoney(n);
      && (n % 100 != 0 ==> r[|r| - 5..] == ".00 $")
      && r[..|r| - (if n % 100 == 0 then 2 else 5)] == Grouped(n / 100)
  {
    var g := Grouped(n / 100);
    GroupedNoPoint(n / 100);
    var r := FormatMoney(n);
    if n % 100 != 0 {
      assert r == g + ".00 $";
    } else {
      assert r == g + " $";
    }
  }

  /** A character that Drop does not remove survives it. */
  lemma {:induction false} DropKeeps(s: string, c: char, i: nat)
    requires i < |s| && s[i] != c
    ensures s[i] in Drop(s, c)
  {
    if i > 0 {
      DropKeeps(s[1..], c, i - 1);
    }
  }

  /** Removing the suffix (" $", and ".00" when present) and the commas from a
      formatted amount yields Python's str of the floor dollars, so the dollars are
      always recoverable from the output. */
  lemma FormatMoneyDollars(n: int)
    ensures var r := FormatMoney(n); var k := if n % 100 == 0 then 2 else 5;
      |r| >= k && Drop(r[..|r| - k], ',') == Plain(n / 100)
  {
    FormatMoneyLayout(n);
    GroupedPlain(n / 100);
  }

  /** Python's int(str(d)) on the output of Plain. */
  function ParsePlain(s: string): int
  {
    if |s| > 0 && s[0] == '-' then -ValueOf(s[1..]) else ValueOf(s)
  }

  lemma PlainRoundTrip(d: int)
    ensures ParsePlain(Plain(d)) == d
  {
    if d < 0 {
      ValueOfDigits(-d);
      assert Plain(d)[1..] == Digits(-d);
    } else {
      ValueOfDigits(d);
    }
  }

  /** What a reader of a formatted amount sees as its dollars: the output
      without " $" (and without ".00" when it has a point), commas removed,
      read as an integer. */
  function ShownDollars(r: string): int
  {
    var k := if '.' in r then 5 else 2;
    ParsePlain(Drop(r[..if |r| >= k then |r| - k else 0], ','))
  }

  /** The formatted amount shows exactly the floor dollars of the amount. */
  lemma FormatMoneyShowsDollars(n: int)
    ensures ShownDollars(FormatMoney(n)) == n / 100
  {
    FormatMoneyDollars(n);
    PlainRoundTrip(n / 100);
  }

  // ---------------------------------------------------------------------------
  // formater_argent as documented

  /** formater_argent as its documentation describes it: thousands separators and
      two digits after the decimal point, the second pair being the cents. */
  function FormatMoneyWithCents(n: int): string
  {
    (if n < 0 then "-" else "") + CentsBody(if n < 0 then -n else n) + " $"
  }

  /** The unsigned part of the documented format for a non-negative amount. */
  function CentsBody(a: nat): string
  {
    var cents := a % 100;
    Group(Digits(a / 100)) + ['.', DigitChar(cents / 10), DigitChar(cents % 10)]
  }

  /** Reads an amount in cents back from a formatted string: drops the " $"
      suffix, takes a leading minus sign, removes the commas and the point, and
      reads the remaining digits. */
  function ParseMoney(r: string): int
  {
    var body := if |r| >= 2 then r[..|r| - 2] else r;
    if |body| > 0 && body[0] == '-' then -ParseUnsigned(body[1..]) else ParseUnsigned(body)
  }

  function ParseUnsigned(u: string): int
  {
    ValueOf(Drop(Drop(u, ','), '.'))
  }

  lemma ValueOfSnoc(s: string, c: char)
    ensures ValueOf(s + [c]) == 10 * ValueOf(s) + DigitValue(c)
  {
    assert (s + [c])[..|s|] == s;
  }

  lemma {:induction false} GroupStartsWithDigit(s: string)
    requires |s| >= 1 && AllDigits(s)
    ensures IsDigit(Group(s)[0])
  {
    if |s| > 3 {
      var p := s[..|s| - 3];
      DigitsSplit(s, |s| - 3);
      GroupStartsWithDigit(p);
      GroupLength(p);
      assert Group(s)[0] == Group(p)[0];
    }
  }

  lemma NoPointInDigits(s: string)
    requires AllDigits(s)
    ensures '.' !in s && Drop(s, '.') == s
  {
    forall i | 0 <= i < |s| ensures s[i] != '.' { assert IsDigit(s[i]); }
    DropAbsent(s, '.');
  }

  /** Removing the commas from grouped digits followed by a comma-free tail
      leaves the digits and the tail. */
  lemma DropCommaTail(ds: string, tail: string)
    requires AllDigits(ds) && ',' !in tail
    ensures Drop(Group(ds) + tail, ',') == ds + tail
  {
    DropAppend(Group(ds), tail, ',');
    GroupDrop(ds);
    DropAbsent(tail, ',');
  }

  /** Removing the point from digits followed by ".", c1, c2 leaves the digits
      followed by c1, c2. */
  lemma DropPointTail(ds: string, c1: char, c2: char)
    requires AllDigits(ds) && IsDigit(c1) && IsDigit(c2)
    ensures Drop(ds + ['.', c1, c2], '.') == ds + [c1, c2]
  {
    DropAppend(ds, ['.', c1, c2], '.');
    NoPointInDigits(ds);
    assert ['.', c1, c2] == ['.'] + [c1, c2];
    DropAppend(['.'], [c1, c2], '.');
    assert '.' !in [c1, c2];
    DropAbsent([c1, c2], '.');
  }

  lemma ValueOfTwoMore(ds: string, c1: char, c2: char)
    ensures ValueOf(ds + [c1, c2]) == 100 * ValueOf(ds) + 10 * DigitValue(c1) + DigitValue(c2)
  {
    assert ds + [c1, c2] == (ds + [c1]) + [c2];
    ValueOfSnoc(ds + [c1], c2);
    ValueOfSnoc(ds, c1);
  }

  /** The unsigned part reads back as the amount and starts with a digit. */
  lemma CentsBodyValue(a: nat)
    ensures ParseUnsigned(CentsBody(a)) == a
    ensures |CentsBody(a)| > 0 && IsDigit(CentsBody(a)[0])
  {
    var ds := Digits(a / 100);
    var cents := a % 100;
    var c1, c2 := DigitChar(cents / 10), DigitChar(cents % 10);
    assert ',' !in ['.', c1, c2];
    DropCommaTail(ds, ['.', c1, c2]);
    DropPointTail(ds, c1, c2);
    ValueOfTwoMore(ds, c1, c2);
    ValueOfDigits(a / 100);
    assert 10 * (cents / 10) + cents % 10 == cents;
    assert 100 * (a / 100) + cents == a;
    GroupLength(ds);
    GroupStartsWithDigit(ds);
  }

  /** The documented format loses nothing: every amount in cents, negative
      ones included, is read back exactly from its formatted string. */
  lemma FormatMoneyWithCentsRoundTrip(n: int)
    ensures ParseMoney(FormatMoneyWithCents(n)) == n
  {
    var a := if n < 0 then -n else n;
    var u := CentsBody(a);
    CentsBodyValue(a);
    var sign := if n < 0 then "-" else "";
    var r := FormatMoneyWithCents(n);
    assert r[..|r| - 2] == sign + u;
    if n < 0 {
      assert (sign + u)[1..] == u;
    } else {
      assert sign + u == u;
      assert u[0] != '-';
    }
  }

  /** As written, formater_argent prints two different amounts identically:
      1.50 $ and 1.99 $ both come out as "1.00 $", and reading that output
      back gives 100 cents. */
  lemma FormatMoneyDropsCents()
    ensures FormatMoney(150) == "1.00 $" && FormatMoney(199) == "1.00 $"
    ensures ParseMoney(FormatMoney(150)) == 100
  {
    assert Grouped(1) == "1" by {
      assert Digits(1) == "1";
      assert Group("1") == "1";
    }
    assert Split(150) == (1, 50) && Split(199) == (1, 99);
    ParseOneDollar();
  }

  lemma ParseOneDollar()
    ensures ParseMoney("1.00 $") == 100
  {
    assert "1.00 $"[..4] == "1.00";
    assert Drop("1.00", ',') == "1.00";
    assert Drop("1.00", '.') == "100" by {
      assert "1.00"[1..] == ".00" && ".00"[1..] == "00" && "00"[1..] == "0" && "0"[1..] == "";
    }
    assert ValueOf("100") == 100 by {
      assert "100"[..2] == "10" && "10"[..1] == "1" && "1"[..0] == "";
    }
  }

  /** The documented format prints the same amount with its cents. */
  lemma FormatMoneyWithCentsExample()
    ensures FormatMoneyWithCents(150) == "1.50 $" && ParseMoney(FormatMoneyWithCents(150)) == 150
  {
    assert CentsBody(150) == "1.50" by {
      assert 150 / 100 == 1 && 150 % 100 == 50 && 50 / 10 == 5 && 50 % 10 == 0;
      assert DigitChar(5) == '5' && DigitChar(0) == '0';
      assert Group(Digits(1)) == "1";
    }
    FormatMoneyWithCentsRoundTrip(150);
  }
}
