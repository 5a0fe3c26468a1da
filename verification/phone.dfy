/** The phone half of the form logic: the digit filter `replace(/\D/g, '')`,
    `formatPhoneNumber`, `validatePhone` and the input-mask handler of the
    telephone fields. */
module Phone {

  /** JavaScript `\d`: the ASCII digits only. */
  predicate IsDigit(c: char) {
    '0' <= c <= '9'
  }

  predicate AllDigits(s: string) {
    forall i :: 0 <= i < |s| ==> IsDigit(s[i])
  }

  /** `s.replace(/\D/g, '')`: the digits of `s`, in order. */
  function Digits(s: string): (d: string)
    ensures AllDigits(d)
    ensures |d| <= |s|
  {
    if |s| == 0 then ""
    else (if IsDigit(s[0]) then [s[0]] else "") + Digits(s[1..])
  }

  function Min(a: int, b: int): int {
    if a <= b then a else b
  }

  function Clamp(i: int, len: nat): nat {
    if i < 0 then 0 else if i > len then len else i
  }

  /** `s.substring(i, j)`: both ends clamped into `[0, |s|]`, swapped when
      the start lies past the end. */
  function Substring(s: string, i: int, j: int): string {
    var a := Clamp(i, |s|);
    var b := Clamp(j, |s|);
    if a <= b then s[a..b] else s[b..a]
  }

  /** The body of `formatPhoneNumber` once the digit string `d` is non-empty:
      "+7", then each group of the mask once enough digits exist. */
  function Layout(d: string): string
    requires |d| > 0
  {
    "+7"
    + (if |d| > 1 then " (" + Substring(d, 1, 4) else "")
    + (if |d| >= 5 then ") " + Substring(d, 4, 7) else "")
    + (if |d| >= 8 then "-" + Substring(d, 7, 9) else "")
    + (if |d| >= 10 then "-" + Substring(d, 9, 11) else "")
  }

  /** `formatPhoneNumber`: the empty string for input without digits,
      otherwise the digits laid out as `+7 (XXX) XXX-XX-XX`. */
  function FormatPhoneNumber(phone: string): (r: string)
    ensures r == "" <==> Digits(phone) == ""
    ensures r != "" ==> |r| >= 2 && r[..2] == "+7"
  {
    var d := Digits(phone);
    if |d| == 0 then "" else Layout(d)
  }

  /** The digits the formatter keeps: the first digit (the country code it
      replaces with "+7") and everything after the eleventh are dropped. */
  function Kept(d: string): (k: string)
    requires |d| > 0
    ensures |k| <= 10
  {
    d[1..Min(11, |d|)]
  }

  /** The mask `+7 (XXX) XXX-XX-XX`: what is written before the kept digit at
      position `i`. */
  function Separator(i: nat): string {
    if i == 0 then " (" else if i == 3 then ") " else if i == 6 || i == 8 then "-" else ""
  }

  /** Reference rendering of kept digits, one digit at a time: "+7", then
      every kept digit preceded by its separator in the mask. */
  function Render(k: string): string {
    RenderUpTo(k, |k|)
  }

  /** The rendering of the first `j` kept digits. */
  function RenderUpTo(k: string, j: nat): string
    requires j <= |k|
  {
    if j == 0 then "+7" else RenderUpTo(k, j - 1) + Separator(j - 1) + [k[j - 1]]
  }

  /** `validatePhone`: at least eleven digits, whatever else the text holds. */
  function ValidatePhone(phone: string): (ok: bool)
    ensures ok ==> |phone| >= 11
    ensures AllDigits(phone) ==> (ok <==> |phone| >= 11)
  {
    var d := Digits(phone);
    assert AllDigits(phone) ==> d == phone by {
      if AllDigits(phone) { DigitsOfDigits(phone); }
    }
    |d| >= 11
  }

  /** The `input` handler of a telephone field: the digits of the field's
      current value, prefixed with "+7" when there are any, then formatted. */
  function MaskInput(value: string): (r: string)
    ensures r == "" <==> Digits(value) == ""
  {
    var d := Digits(value);
    if |d| > 0 then
      DigitsOfCountryCode(d);
      FormatPhoneNumber("+7" + d)
    else
      FormatPhoneNumber(d)
  }

  // ---------------------------------------------------------------------
  // The digit filter

  lemma {:induction false} DigitsAppend(a: string, b: string)
    ensures Digits(a + b) == Digits(a) + Digits(b)
    decreases |a|
  {
    if |a| > 0 {
      assert (a + b)[1..] == a[1..] + b;
      DigitsAppend(a[1..], b);
    } else {
      assert a + b == b;
    }
  }

  lemma {:induction false} DigitsOfDigits(s: string)
    requires AllDigits(s)
    ensures Digits(s) == s
    decreases |s|
  {
    if |s| > 0 {
      DigitsOfDigits(s[1..]);
    }
  }

  /** `validatePhone` looks at digits only: inserting any other character
      never changes its verdict, inserting a digit can only help. */
  lemma ValidatePhoneIgnoresOthers(a: string, c: char, b: string)
    ensures !IsDigit(c) ==> (ValidatePhone(a + [c] + b) <==> ValidatePhone(a + b))
    ensures ValidatePhone(a + b) ==> ValidatePhone(a + [c] + b)
  {
    DigitsAppend(a + [c], b);
    DigitsAppend(a, [c]);
    DigitsAppend(a, b);
  }

  // ---------------------------------------------------------------------
  // The formatter against its reference rendering

  /** A slice of a slice is a slice of the original. */
  lemma SliceOfSlice(s: string, i: nat, j: nat, a: nat, b: nat)
    requires i <= j <= |s| && a <= b <= j - i
    ensures s[i..j][a..b] == s[i + a..i + b]
  {
    assert forall x :: 0 <= x < b - a ==> s[i..j][a..b][x] == s[i + a + x];
  }

  /** Inside one group of the mask (no group starts strictly between `i`
      and `j`), the rendering grows by the separator at `i` and plain digits. */
  lemma {:induction false} RenderGroup(k: string, i: nat, j: nat)
    requires i < j <= |k|
    requires !(i < 3 < j) && !(i < 6 < j) && !(i < 8 < j)
    ensures RenderUpTo(k, j) == RenderUpTo(k, i) + (Separator(i) + k[i..j])
    decreases j - i
  {
    if i + 1 < j {
      RenderGroup(k, i, j - 1);
      assert Separator(j - 1) == "";
      assert RenderUpTo(k, j) == RenderUpTo(k, j - 1) + [k[j - 1]];
    }
    GroupSnoc(RenderUpTo(k, i), Separator(i), k, i, j);
  }

  lemma GroupSnoc<T>(r: seq<T>, s: seq<T>, k: seq<T>, i: nat, j: nat)
    requires i < j <= |k|
    ensures r + (s + k[i..j - 1]) + [k[j - 1]] == r + (s + k[i..j])
    ensures i + 1 == j ==> r + s + [k[i]] == r + (s + k[i..j])
  {
    assert k[i..j - 1] + [k[j - 1]] == k[i..j];
  }

  /** `formatPhoneNumber`'s layout is the reference rendering of the kept digits. */
  lemma LayoutIsRender(d: string)
    requires |d| > 0
    ensures Layout(d) == Render(Kept(d))
  {
    var n := |d|;
    if n == 1 {
      assert Kept(d) == "";
    } else if n <= 4 {
      LayoutOneGroup(d);
    } else if n <= 7 {
      LayoutTwoGroups(d);
    } else if n <= 9 {
      LayoutThreeGroups(d);
    } else {
      LayoutFourGroups(d);
    }
  }

  lemma LayoutOneGroup(d: string)
    requires 2 <= |d| <= 4
    ensures Layout(d) == Render(Kept(d))
  {
    var n := |d|;
    var k := Kept(d);
    assert Layout(d) == "+7" + (" (" + d[1..n]) by {
      assert Substring(d, 1, 4) == d[1..n];
    }
    RenderGroup(k, 0, n - 1);
    assert k[0..n - 1] == d[1..n];
  }

  lemma LayoutTwoGroups(d: string)
    requires 5 <= |d| <= 7
    ensures Layout(d) == Render(Kept(d))
  {
    var n := |d|;
    var k := Kept(d);
    assert Layout(d) == "+7" + (" (" + d[1..4]) + (") " + d[4..n]) by {
      assert Substring(d, 1, 4) == d[1..4];
      assert Substring(d, 4, 7) == d[4..n];
    }
    assert Render(k) == "+7" + (" (" + k[0..3]) + (") " + k[3..n - 1]) by {
      RenderGroup(k, 3, n - 1);
      RenderGroup(k, 0, 3);
    }
    KeptGroups(d, 3, n - 1);
  }

  lemma LayoutThreeGroups(d: string)
    requires 8 <= |d| <= 9
    ensures Layout(d) == Render(Kept(d))
  {
    var n := |d|;
    var k := Kept(d);
    assert Layout(d) == "+7" + (" (" + d[1..4]) + (") " + d[4..7]) + ("-" + d[7..n]) by {
      assert Substring(d, 1, 4) == d[1..4];
      assert Substring(d, 4, 7) == d[4..7];
      assert Substring(d, 7, 9) == d[7..n];
    }
    assert Render(k) == "+7" + (" (" + k[0..3]) + (") " + k[3..6]) + ("-" + k[6..n - 1]) by {
      RenderGroup(k, 6, n - 1);
      RenderGroup(k, 3, 6);
      RenderGroup(k, 0, 3);
    }
    KeptGroups(d, 3, 6);
    KeptGroups(d, 6, n - 1);
  }

  lemma LayoutFourGroups(d: string)
    requires |d| >= 10
    ensures Layout(d) == Render(Kept(d))
  {
    var m := Min(11, |d|);
    var k := Kept(d);
    assert Layout(d) == "+7" + (" (" + d[1..4]) + (") " + d[4..7]) + ("-" + d[7..9]) + ("-" + d[9..m]) by {
      assert Substring(d, 1, 4) == d[1..4];
      assert Substring(d, 4, 7) == d[4..7];
      assert Substring(d, 7, 9) == d[7..9];
      assert Substring(d, 9, 11) == d[9..m];
    }
    assert Render(k) == "+7" + (" (" + k[0..3]) + (") " + k[3..6]) + ("-" + k[6..8]) + ("-" + k[8..m - 1]) by {
      RenderGroup(k, 8, m - 1);
      RenderGroup(k, 6, 8);
      RenderGroup(k, 3, 6);
      RenderGroup(k, 0, 3);
    }
    KeptGroups(d, 3, 6);
    KeptGroups(d, 6, 8);
    KeptGroups(d, 8, m - 1);
  }

  /** The kept digits from `a` to `b` are the input digits from `a + 1` to `b + 1`. */
  lemma KeptGroups(d: string, a: nat, b: nat)
    requires |d| > 0 && 3 <= a <= b <= |Kept(d)|
    ensures Kept(d)[0..3] == d[1..4] && Kept(d)[a..b] == d[a + 1..b + 1]
  {
    var m := Min(11, |d|);
    SliceOfSlice(d, 1, m, 0, 3);
    SliceOfSlice(d, 1, m, a, b);
  }

  /** Extending the digit string only extends the kept digits. */
  lemma KeptPrefix(d: string, e: string)
    requires 0 < |d| <= |e| && d == e[..|d|]
    ensures Kept(d) == Kept(e)[..|Kept(d)|]
  {
    var m := Min(11, |d|);
    SliceOfSlice(e, 0, |d|, 1, m);
    SliceOfSlice(e, 1, Min(11, |e|), 0, m - 1);
  }

  /** Rendering is monotone: a prefix of the kept digits renders to a prefix. */
  lemma RenderPrefix(k: string, k': string)
    requires |k| <= |k'| && k == k'[..|k|]
    ensures |Render(k)| <= |Render(k')| && Render(k) == Render(k')[..|Render(k)|]
  {
    RenderAgrees(k, k', |k|);
    RenderUpToPrefix(k', |k|, |k'|);
  }

  /** The rendering of the first `j` digits depends on those digits only. */
  lemma {:induction false} RenderAgrees(k: string, k': string, j: nat)
    requires j <= |k| && j <= |k'| && k[..j] == k'[..j]
    ensures RenderUpTo(k, j) == RenderUpTo(k', j)
  {
    if j > 0 {
      assert k[..j - 1] == k[..j][..j - 1] && k'[..j - 1] == k'[..j][..j - 1];
      RenderAgrees(k, k', j - 1);
      assert k[j - 1] == k[..j][j - 1];
    }
  }

  lemma {:induction false} RenderUpToPrefix(k: string, i: nat, j: nat)
    requires i <= j <= |k|
    ensures |RenderUpTo(k, i)| <= |RenderUpTo(k, j)|
    ensures RenderUpTo(k, i) == RenderUpTo(k, j)[..|RenderUpTo(k, i)|]
    decreases j
  {
    if i < j {
      RenderUpToPrefix(k, i, j - 1);
      PrefixExtends(RenderUpTo(k, i), RenderUpTo(k, j - 1), Separator(j - 1) + [k[j - 1]]);
    }
  }

  lemma PrefixExtends<T>(a: seq<T>, b: seq<T>, c: seq<T>)
    requires |a| <= |b| && a == b[..|a|]
    ensures a == (b + c)[..|a|]
  {
  }

  /** The digits of a rendering: "7" and then the kept digits. */
  lemma RenderDigits(k: string)
    requires AllDigits(k)
    ensures Digits(Render(k)) == "7" + k
  {
    RenderUpToDigits(k, |k|);
    assert k[..|k|] == k;
  }

  lemma {:induction false} RenderUpToDigits(k: string, j: nat)
    requires AllDigits(k) && j <= |k|
    ensures Digits(RenderUpTo(k, j)) == "7" + k[..j]
    decreases j
  {
    if j == 0 {
      assert Digits("+7") == "7" by {
        assert "+7"[1..] == "7" && "7"[1..] == "";
      }
    } else {
      RenderUpToDigits(k, j - 1);
      RenderStepDigits(k, j);
    }
  }

  /** One more kept digit adds exactly that digit to the rendering's digits. */
  lemma RenderStepDigits(k: string, j: nat)
    requires 0 < j <= |k| && IsDigit(k[j - 1])
    requires Digits(RenderUpTo(k, j - 1)) == "7" + k[..j - 1]
    ensures Digits(RenderUpTo(k, j)) == "7" + k[..j]
  {
    var r, sep, c := RenderUpTo(k, j - 1), Separator(j - 1), [k[j - 1]];
    assert RenderUpTo(k, j) == r + sep + c;
    DigitsOfThree(r, sep, c);
    SeparatorDigits(j - 1);
    DigitOnly(k[j - 1]);
    SnocPrefix("7", k, j);
  }

  lemma DigitsOfThree(a: string, b: string, c: string)
    ensures Digits(a + b + c) == Digits(a) + Digits(b) + Digits(c)
  {
    DigitsAppend(a + b, c);
    DigitsAppend(a, b);
  }

  lemma SnocPrefix(p: string, k: string, j: nat)
    requires 0 < j <= |k|
    ensures p + k[..j - 1] + "" + [k[j - 1]] == p + k[..j]
  {
    assert k[..j - 1] + [k[j - 1]] == k[..j];
  }

  lemma DigitOnly(c: char)
    requires IsDigit(c)
    ensures Digits([c]) == [c]
  {
    assert [c][1..] == "";
  }

  lemma SeparatorDigits(i: nat)
    ensures Digits(Separator(i)) == ""
  {
    assert " ("[1..] == "(" && "("[1..] == "";
    assert ") "[1..] == " " && " "[1..] == "";
    assert "-"[1..] == "";
  }

  /** Whenever there is a digit, the formatted text is the reference
      rendering of the kept digits. */
  lemma FormatMatchesRender(phone: string)
    ensures Digits(phone) != "" ==> FormatPhoneNumber(phone) == Render(Kept(Digits(phone)))
  {
    if Digits(phone) != "" {
      LayoutIsRender(Digits(phone));
    }
  }

  /** The digits of the formatted text are "7" followed by the kept digits:
      the first input digit is replaced and nothing past the eleventh survives. */
  lemma FormatKeepsDigits(phone: string)
    ensures Digits(FormatPhoneNumber(phone))
            == if Digits(phone) == "" then "" else "7" + Kept(Digits(phone))
  {
    var d := Digits(phone);
    if d != "" {
      FormatMatchesRender(phone);
      RenderDigits(Kept(d));
    } else {
      assert FormatPhoneNumber(phone) == "";
    }
  }

  /** Two inputs with the same kept digits format identically, whatever their
      first digit, their digits past the eleventh and their other characters. */
  lemma FormatDependsOnlyOnKept(s: string, t: string)
    requires Digits(s) != "" && Digits(t) != ""
    requires Kept(Digits(s)) == Kept(Digits(t))
    ensures FormatPhoneNumber(s) == FormatPhoneNumber(t)
  {
    FormatMatchesRender(s);
    FormatMatchesRender(t);
  }

  /** Formatting formatted text changes nothing. */
  lemma FormatIdempotent(phone: string)
    ensures FormatPhoneNumber(FormatPhoneNumber(phone)) == FormatPhoneNumber(phone)
  {
    var d := Digits(phone);
    if d != "" {
      var f := FormatPhoneNumber(phone);
      var k := Kept(d);
      FormatKeepsDigits(phone);
      assert Digits(f) == "7" + k;
      KeptAfterCountryCode(k);
      FormatDependsOnlyOnKept(f, phone);
    }
  }

  lemma KeptAfterCountryCode(k: string)
    requires |k| <= 10
    ensures Kept("7" + k) == k
  {
  }

  /** Appending digits to `formatPhoneNumber`'s input only extends its
      output: formatting is monotone with respect to prefixes of the digit
      string. The field on the page does not inherit this through the mask
      as written (`MaskRetypeExample`), only through the corrected mask
      (`MaskKeepingCodeTyping`). */
  lemma FormatMonotone(s: string, t: string)
    requires Digits(s) != "" && |Digits(s)| <= |Digits(t)| && Digits(s) == Digits(t)[..|Digits(s)|]
    ensures |FormatPhoneNumber(s)| <= |FormatPhoneNumber(t)|
    ensures FormatPhoneNumber(s) == FormatPhoneNumber(t)[..|FormatPhoneNumber(s)|]
  {
    FormatMatchesRender(s);
    FormatMatchesRender(t);
    KeptPrefix(Digits(s), Digits(t));
    RenderPrefix(Kept(Digits(s)), Kept(Digits(t)));
  }

  /** A formatted number passes `validatePhone` exactly when its input held
      at least eleven digits. */
  lemma ValidateFormatted(phone: string)
    ensures ValidatePhone(FormatPhoneNumber(phone)) <==> ValidatePhone(phone)
  {
    FormatKeepsDigits(phone);
  }

  // ---------------------------------------------------------------------
  // The input mask

  lemma DigitsOfCountryCode(d: string)
    requires AllDigits(d)
    ensures Digits("+7" + d) == "7" + d
  {
    DigitsAppend("+7", d);
    DigitsOfDigits(d);
    assert Digits("+7") == "7" by {
      assert "+7"[1..] == "7" && "7"[1..] == "";
    }
  }

  /** The mask keeps "7" and then the first ten digits the field holds. */
  lemma MaskKeepsDigits(value: string)
    ensures Digits(MaskInput(value))
            == if Digits(value) == "" then "" else "7" + Digits(value)[..Min(10, |Digits(value)|)]
  {
    var d := Digits(value);
    if d != "" {
      var p := "+7" + d;
      MaskOfDigits(value);
      DigitsOfCountryCode(d);
      FormatKeepsDigits(p);
      KeptOfCountryCode(d);
    } else {
      assert MaskInput(value) == "";
    }
  }

  lemma MaskOfDigits(value: string)
    requires Digits(value) != ""
    ensures MaskInput(value) == FormatPhoneNumber("+7" + Digits(value))
  {
  }

  lemma KeptOfCountryCode(d: string)
    ensures Kept("7" + d) == d[..Min(10, |d|)]
  {
    assert ("7" + d)[1..Min(11, |d| + 1)] == d[..Min(10, |d|)];
  }

  /** A masked field passes `validatePhone` once it holds ten digits. */
  lemma ValidateMasked(value: string)
    ensures ValidatePhone(MaskInput(value)) <==> |Digits(value)| >= 10
  {
    MaskKeepsDigits(value);
  }

  lemma FormatOfDigits(phone: string, d: string)
    requires Digits(phone) == d && d != ""
    ensures FormatPhoneNumber(phone) == Layout(d)
  {
  }

  /** The mask on a field whose value becomes "9991234567" in one input
      event (a paste, say), and on fields without digits. Typing the same
      digits one key at a time gives something else: see `MaskRetypeExample`. */
  lemma MaskExamples()
    ensures MaskInput("9991234567") == "+7 (999) 123-45-67"
    ensures MaskInput("") == ""
    ensures MaskInput(" ") == ""
  {
    MaskPastedExample();
    MaskBlankExample();
  }

  /** Ten digits arriving in one input event fill the mask. */
  lemma MaskPastedExample()
    ensures MaskInput("9991234567") == "+7 (999) 123-45-67"
  {
    var d := "9991234567";
    DigitsOfLiteral();
    MaskTenDigits(d, d);
    PastedGroups();
  }

  /** `formatPhoneNumber` itself, called on ten digits, takes the first one
      for the country code and shows only nine of the rest. */
  lemma FormatTenDigitsExample()
    ensures FormatPhoneNumber("9991234567") == "+7 (991) 234-56-7"
  {
    var d := "9991234567";
    DigitsOfLiteral();
    FormatOfDigits(d, d);
    TenDigitLayout(d);
    assert d[1..4] == "991";
    assert d[4..7] == "234";
    assert d[7] == '5' && d[8] == '6' && d[9] == '7';
    assert d[7..9] == "56";
    assert d[9..10] == "7";
  }

  /** Ten digits fill three groups and one digit of the fourth. */
  lemma TenDigitLayout(d: string)
    requires |d| == 10
    ensures Layout(d) == "+7" + (" (" + d[1..4]) + (") " + d[4..7]) + ("-" + d[7..9]) + ("-" + d[9..10])
  {
    assert Substring(d, 1, 4) == d[1..4];
    assert Substring(d, 4, 7) == d[4..7];
    assert Substring(d, 7, 9) == d[7..9];
    assert Substring(d, 9, 11) == d[9..10];
  }

  lemma DigitsOfLiteral()
    ensures Digits("9991234567") == "9991234567"
  {
    DigitsOfDigits("9991234567");
  }

  lemma PastedGroups()
    ensures var d := "9991234567";
      "+7" + (" (" + d[0..3]) + (") " + d[3..6]) + ("-" + d[6..8]) + ("-" + d[8..10]) == "+7 (999) 123-45-67"
  {
    var d := "9991234567";
    assert d[0..3] == "999" && d[3..6] == "123" && d[6..8] == "45" && d[8..10] == "67";
  }

  lemma MaskBlankExample()
    ensures MaskInput("") == ""
    ensures MaskInput(" ") == ""
  {
    assert Digits(" ") == "" by {
      assert " "[1..] == "";
    }
  }

  /** A value holding ten digits when the input event fires fills the
      whole mask. */
  lemma MaskTenDigits(value: string, d: string)
    requires Digits(value) == d && |d| == 10
    ensures MaskInput(value) == "+7" + (" (" + d[0..3]) + (") " + d[3..6]) + ("-" + d[6..8]) + ("-" + d[8..10])
  {
    MaskIsLayout(value);
    LayoutFull("7" + d);
    ShiftedGroups(d);
  }

  /** With any digit present, the mask lays out "7" and the field's digits. */
  lemma MaskIsLayout(value: string)
    requires Digits(value) != ""
    ensures MaskInput(value) == Layout("7" + Digits(value))
  {
    var d := Digits(value);
    MaskOfDigits(value);
    DigitsOfCountryCode(d);
    FormatOfDigits("+7" + d, "7" + d);
  }

  /** Eleven digits or more fill all four groups. */
  lemma LayoutFull(e: string)
    requires |e| >= 11
    ensures Layout(e) == "+7" + (" (" + e[1..4]) + (") " + e[4..7]) + ("-" + e[7..9]) + ("-" + e[9..11])
  {
    assert Substring(e, 1, 4) == e[1..4];
    assert Substring(e, 4, 7) == e[4..7];
    assert Substring(e, 7, 9) == e[7..9];
    assert Substring(e, 9, 11) == e[9..11];
  }

  lemma ShiftedGroups(d: string)
    requires |d| == 10
    ensures var e := "7" + d;
      e[1..4] == d[0..3] && e[4..7] == d[3..6] && e[7..9] == d[6..8] && e[9..11] == d[8..10]
  {
  }

  // ---------------------------------------------------------------------
  // The mask applied to its own output

  /** Every `input` event feeds the mask the field's current, already masked
      value, and the mask prefixes "+7" again: a second pass puts a second
      "7" in front of the number. */
  lemma MaskRepeatsCountryCode(value: string)
    requires Digits(value) != ""
    ensures |Digits(MaskInput(MaskInput(value)))| >= 2
    ensures Digits(MaskInput(MaskInput(value)))[..2] == "77"
  {
    MaskKeepsDigits(value);
    MaskKeepsDigits(MaskInput(value));
  }

  /** Typing "9" and then "9" into an empty telephone field leaves "+7 (799"
      in it instead of "+7 (99". */
  lemma MaskRetypeExample()
    ensures MaskInput("9") == "+7 (9"
    ensures MaskInput(MaskInput("9") + "9") == "+7 (799"
  {
    MaskFirstKey();
    var typed := "+7 (9" + "9";
    SecondKeyDigits();
    MaskOfDigits(typed);
    DigitsOfCountryCode("799");
    FormatOfDigits("+7" + "799", "7799");
    assert Layout("7799") == "+7 (799" by {
      assert Substring("7799", 1, 4) == "799" by { assert "7799"[1..4] == "799"; }
    }
  }

  /** The first keystroke: "9" is masked to "+7 (9". */
  lemma MaskFirstKey()
    ensures MaskInput("9") == "+7 (9"
  {
    assert Digits("9") == "9" by { DigitsOfDigits("9"); }
    MaskOfDigits("9");
    DigitsOfCountryCode("9");
    FormatOfDigits("+7" + "9", "79");
    assert Layout("79") == "+7 (9" by {
      assert Substring("79", 1, 4) == "9" by { assert "79"[1..2] == "9"; }
    }
  }

  /** The field after the second keystroke holds the digits "799". */
  lemma SecondKeyDigits()
    ensures Digits("+7 (9" + "9") == "799"
  {
    DigitsAppend("+7 (", "99");
    DigitsAppend("+7", " (");
    DigitsOfDigits("99");
    assert Digits("+7") == "7" by { assert "+7"[1..] == "7" && "7"[1..] == ""; }
    assert Digits(" (") == "" by { assert " ("[1..] == "(" && "("[1..] == ""; }
    assert "+7 (9" + "9" == "+7 (" + "99";
  }

  /** The mask with the country code kept: a value that already starts with
      "+7" is formatted as it stands, anything else is masked as before. */
  function MaskInputKeepingCode(value: string): (r: string)
    ensures r == "" <==> Digits(value) == ""
  {
    if |value| >= 2 && value[..2] == "+7" then FormatPhoneNumber(value)
    else MaskInput(value)
  }

  /** The corrected mask is stable on its own output. */
  lemma MaskKeepingCodeIdempotent(value: string)
    ensures MaskInputKeepingCode(MaskInputKeepingCode(value)) == MaskInputKeepingCode(value)
  {
    var d := Digits(value);
    var m := MaskInputKeepingCode(value);
    if m != "" {
      if |value| >= 2 && value[..2] == "+7" {
        FormatIdempotent(value);
      } else {
        FormatIdempotent(if |d| > 0 then "+7" + d else d);
      }
    } else {
      assert Digits(m) == "";
    }
  }

  /** With the corrected mask, typing a digit into a masked field appends
      exactly that digit to the number, until ten digits follow the "7". */
  lemma MaskKeepingCodeTyping(value: string, c: char)
    requires IsDigit(c)
    requires |Digits(MaskInputKeepingCode(value))| <= 10
    ensures var m := MaskInputKeepingCode(value);
            Digits(MaskInputKeepingCode(m + [c])) == (if m == "" then "7" + [c] else Digits(m) + [c])
  {
    var m := MaskInputKeepingCode(value);
    if m == "" {
      MaskKeepsDigits([c]);
      DigitOnly(c);
      assert [c][..Min(10, 1)] == [c];
    } else {
      MaskedShape(value);
      var k := Digits(m)[1..];
      var t := m + [c];
      assert t[..2] == "+7";
      DigitsAppend(m, [c]);
      DigitOnly(c);
      assert Digits(t) == "7" + (k + [c]);
      FormatKeepsDigits(t);
      KeptAfterCountryCode(k + [c]);
    }
  }

  /** A non-empty output of the corrected mask starts with "+7" and holds a
      "7" and at most ten more digits. */
  lemma MaskedShape(value: string)
    requires MaskInputKeepingCode(value) != ""
    ensures var m := MaskInputKeepingCode(value);
      && |m| >= 2 && m[..2] == "+7"
      && |Digits(m)| >= 1 && Digits(m) == "7" + Digits(m)[1..] && |Digits(m)| <= 11
  {
    var d := Digits(value);
    var x := if |value| >= 2 && value[..2] == "+7" then value else "+7" + d;
    assert MaskInputKeepingCode(value) == FormatPhoneNumber(x);
    FormatKeepsDigits(x);
  }

  /** With the corrected mask the same two keystrokes give "+7 (99". */
  lemma MaskKeepingCodeRetypeExample()
    ensures MaskInputKeepingCode("9") == "+7 (9"
    ensures MaskInputKeepingCode(MaskInputKeepingCode("9") + "9") == "+7 (99"
  {
    MaskFirstKey();
    var typed := "+7 (9" + "9";
    assert typed[..2] == "+7";
    SecondKeyDigits();
    FormatOfDigits(typed, "799");
    assert Layout("799") == "+7 (99" by {
      assert Substring("799", 1, 4) == "99" by { assert "799"[1..3] == "99"; }
    }
  }
}
