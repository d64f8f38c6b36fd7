/**
 * The pieces of Go's `strings` and `strconv` packages that the media hub's
 * logic depends on, on Dafny strings (sequences of Unicode scalar values).
 */
module GoStrings {

  /** `unicode.IsSpace`: the characters `strings.TrimSpace` removes. */
  predicate IsSpace(c: char) {
    || c == ' ' || c == '\t' || c == '\n' || c == '\U{0B}' || c == '\U{0C}' || c == '\r'
    || c == '\U{85}' || c == '\U{A0}' || c == '\U{1680}'
    || ('\U{2000}' <= c <= '\U{200A}')
    || c == '\U{2028}' || c == '\U{2029}' || c == '\U{202F}' || c == '\U{205F}' || c == '\U{3000}'
  }

  predicate IsAsciiUpper(c: char) {
    'A' <= c <= 'Z'
  }

  /** Lower-cases one character (ASCII letters only). */
  function LowerChar(c: char): (r: char)
    ensures !IsAsciiUpper(r)
    ensures IsSpace(r) <==> IsSpace(c)
    ensures r == c <==> !IsAsciiUpper(c)
  {
    if IsAsciiUpper(c) then (c as int + 32) as char else c
  }

  /** `strings.ToLower`, for ASCII letters. */
  function ToLower(s: string): (r: string)
    ensures |r| == |s|
    ensures forall i :: 0 <= i < |s| ==> r[i] == LowerChar(s[i])
  {
    seq(|s|, i requires 0 <= i < |s| => LowerChar(s[i]))
  }

  lemma ToLowerIdempotent(s: string)
    ensures ToLower(ToLower(s)) == ToLower(s)
  {
  }

  /** Drops the longest prefix of characters in the cut set (`strings.TrimLeftFunc`). */
  function TrimLeft(s: string, cut: char -> bool): (r: string)
    ensures |r| <= |s| && r == s[|s| - |r|..]
    ensures forall k :: 0 <= k < |s| - |r| ==> cut(s[k])
    ensures r != [] ==> !cut(r[0])
    decreases |s|
  {
    if s != [] && cut(s[0]) then TrimLeft(s[1..], cut) else s
  }

  /** Drops the longest suffix of characters in the cut set (`strings.TrimRightFunc`). */
  function TrimRight(s: string, cut: char -> bool): (r: string)
    ensures |r| <= |s| && r == s[..|r|]
    ensures forall k :: |r| <= k < |s| ==> cut(s[k])
    ensures r != [] ==> !cut(r[|r| - 1])
    decreases |s|
  {
    if s != [] && cut(s[|s| - 1]) then TrimRight(s[..|s| - 1], cut) else s
  }

  /** `strings.TrimSpace`. */
  function TrimSpace(s: string): string {
    TrimRight(TrimLeft(s, IsSpace), IsSpace)
  }

  predicate IsSlash(c: char) {
    c == '/'
  }

  /** `strings.Trim(s, "/")`. */
  function TrimSlashes(s: string): string {
    TrimRight(TrimLeft(s, IsSlash), IsSlash)
  }

  /** A string whose first and last characters are outside the cut set is its own trim. */
  lemma TrimOfTrimmed(s: string, cut: char -> bool)
    requires s != [] ==> !cut(s[0]) && !cut(s[|s| - 1])
    ensures TrimRight(TrimLeft(s, cut), cut) == s
  {
  }

  /** `strings.TrimSpace` is idempotent: a trimmed string has nothing left to trim. */
  lemma TrimSpaceIdempotent(s: string)
    ensures TrimSpace(TrimSpace(s)) == TrimSpace(s)
  {
    var l := TrimLeft(s, IsSpace);
    var r := TrimRight(l, IsSpace);
    if r != [] {
      assert r[0] == l[0];
      TrimOfTrimmed(r, IsSpace);
    }
  }

  /** Lower-casing keeps a trimmed string trimmed (it never turns a character into a space). */
  lemma LowerKeepsTrimmed(s: string)
    ensures TrimSpace(ToLower(TrimSpace(s))) == ToLower(TrimSpace(s))
  {
    var t := TrimSpace(s);
    TrimSpaceIdempotent(s);
    var u := ToLower(t);
    if t != [] {
      assert TrimLeft(t, IsSpace) == t;
      assert !IsSpace(t[0]);
      assert TrimRight(t, IsSpace) == t;
      assert !IsSpace(t[|t| - 1]);
      assert !IsSpace(u[0]) && !IsSpace(u[|u| - 1]);
    }
    TrimOfTrimmed(u, IsSpace);
  }

  /** `strings.TrimPrefix`. */
  function TrimPrefix(s: string, prefix: string): (r: string)
    ensures prefix <= s ==> s == prefix + r
    ensures !(prefix <= s) ==> r == s
  {
    if prefix <= s then s[|prefix|..] else s
  }

  /** `strings.HasSuffix`. */
  predicate HasSuffix(s: string, suffix: string) {
    |suffix| <= |s| && s[|s| - |suffix|..] == suffix
  }

  /** `strings.Split(s, string(sep))`: the pieces between separators, in order. */
  function Split(s: string, sep: char): (r: seq<string>)
    ensures |r| >= 1
    ensures forall i :: 0 <= i < |r| ==> sep !in r[i]
    decreases |s|
  {
    if s == [] then [[]]
    else
      var rest := Split(s[1..], sep);
      if s[0] == sep then [[]] + rest else [[s[0]] + rest[0]] + rest[1..]
  }

  /** `strings.Join(parts, string(sep))`. */
  function Join(parts: seq<string>, sep: char): string
    requires |parts| >= 1
    decreases |parts|
  {
    if |parts| == 1 then parts[0] else parts[0] + [sep] + Join(parts[1..], sep)
  }

  /** Joining the pieces back with the separator gives the original string. */
  lemma {:induction false} JoinSplit(s: string, sep: char)
    ensures Join(Split(s, sep), sep) == s
    decreases |s|
  {
    if s != [] {
      var rest := Split(s[1..], sep);
      JoinSplit(s[1..], sep);
      if s[0] == sep {
        assert Split(s, sep)[1..] == rest;
      } else {
        var r := Split(s, sep);
        if |rest| == 1 {
          assert r == [[s[0]] + rest[0]];
        } else {
          assert r[1..] == rest[1..];
          assert Join(rest, sep) == rest[0] + [sep] + Join(rest[1..], sep);
        }
      }
    }
  }

  /** Splitting a piece that holds no separator, followed by more text after one. */
  lemma {:induction false} SplitPiece(a: string, sep: char, tail: string)
    requires sep !in a
    ensures Split(a + [sep] + tail, sep) == [a] + Split(tail, sep)
    ensures Split(a, sep) == [a]
    decreases |a|
  {
    if a != [] {
      SplitPiece(a[1..], sep, tail);
      assert (a + [sep] + tail)[0] == a[0] != sep;
      assert (a + [sep] + tail)[1..] == a[1..] + [sep] + tail;
      assert [a[0]] + a[1..] == a;
    }
  }

  /** Splitting a join of separator-free pieces gives the pieces back. */
  lemma {:induction false} SplitJoin(parts: seq<string>, sep: char)
    requires |parts| >= 1
    requires forall i :: 0 <= i < |parts| ==> sep !in parts[i]
    ensures Split(Join(parts, sep), sep) == parts
    decreases |parts|
  {
    if |parts| == 1 {
      SplitPiece(parts[0], sep, []);
    } else {
      SplitJoin(parts[1..], sep);
      SplitJoinStep(parts, sep);
    }
  }

  /** A separator-free first piece in front of a join that splits back splits back too. */
  lemma SplitJoinStep(parts: seq<string>, sep: char)
    requires |parts| > 1 && sep !in parts[0]
    requires Split(Join(parts[1..], sep), sep) == parts[1..]
    ensures Split(Join(parts, sep), sep) == parts
  {
    SplitPiece(parts[0], sep, Join(parts[1..], sep));
    assert [parts[0]] + parts[1..] == parts;
  }

  /** One step of `Split`: a first character that is the separator starts a new piece, any other extends the first piece. */
  lemma SplitCons(c: char, s: string, sep: char)
    ensures var rest := Split(s, sep);
      Split([c] + s, sep) == if c == sep then [[]] + rest else [[c] + rest[0]] + rest[1..]
  {
    assert ([c] + s)[0] == c && ([c] + s)[1..] == s;
  }

  /** Splitting at one separator splits the two sides independently. */
  lemma {:induction false} SplitConcat(a: string, sep: char, b: string)
    ensures Split(a + [sep] + b, sep) == Split(a, sep) + Split(b, sep)
    decreases |a|
  {
    if a == [] {
      assert a + [sep] + b == [sep] + b;
      SplitCons(sep, b, sep);
    } else {
      var c, a' := a[0], a[1..];
      SplitConcat(a', sep, b);
      assert a == [c] + a';
      assert a + [sep] + b == [c] + (a' + [sep] + b);
      SplitCons(c, a' + [sep] + b, sep);
      SplitCons(c, a', sep);
      SplitStepAppend(c, sep, Split(a', sep), Split(b, sep));
    }
  }

  /** The step of `SplitCons` commutes with appending more pieces. */
  lemma SplitStepAppend(c: char, sep: char, pieces: seq<string>, more: seq<string>)
    requires |pieces| >= 1
    ensures var rest := pieces + more;
      (if c == sep then [[]] + rest else [[c] + rest[0]] + rest[1..])
      == (if c == sep then [[]] + pieces else [[c] + pieces[0]] + pieces[1..]) + more
  {
    var rest := pieces + more;
    if c != sep {
      assert rest[0] == pieces[0];
      assert rest[1..] == pieces[1..] + more;
    }
  }

  /** Characters of the cut set in front never survive a left trim. */
  lemma {:induction false} TrimLeftSkips(pre: string, x: string, cut: char -> bool)
    requires forall k :: 0 <= k < |pre| ==> cut(pre[k])
    ensures TrimLeft(pre + x, cut) == TrimLeft(x, cut)
    decreases |pre|
  {
    if pre != [] {
      TrimLeftSkips(pre[1..], x, cut);
      assert (pre + x)[1..] == pre[1..] + x;
    } else {
      assert pre + x == x;
    }
  }

  /** Characters of the cut set behind never survive a right trim. */
  lemma {:induction false} TrimRightSkips(x: string, post: string, cut: char -> bool)
    requires forall k :: 0 <= k < |post| ==> cut(post[k])
    ensures TrimRight(x + post, cut) == TrimRight(x, cut)
    decreases |post|
  {
    if post != [] {
      var w := x + post;
      TrimRightSkips(x, post[..|post| - 1], cut);
      assert w[|w| - 1] == post[|post| - 1];
      assert w[..|w| - 1] == x + post[..|post| - 1];
    } else {
      assert x + post == x;
    }
  }

  /** Surrounding a string that does not start or end with a space by spaces is undone by TrimSpace. */
  lemma TrimSpaceSurrounded(pre: string, s: string, post: string)
    requires forall k :: 0 <= k < |pre| ==> IsSpace(pre[k])
    requires forall k :: 0 <= k < |post| ==> IsSpace(post[k])
    requires s != [] ==> !IsSpace(s[0]) && !IsSpace(s[|s| - 1])
    ensures TrimSpace(pre + s + post) == s
  {
    TrimSurrounded(pre, s, post, IsSpace);
  }

  /** Trimming both ends of a string wrapped in cut characters gives back the string. */
  lemma TrimSurrounded(pre: string, s: string, post: string, cut: char -> bool)
    requires forall k :: 0 <= k < |pre| ==> cut(pre[k])
    requires forall k :: 0 <= k < |post| ==> cut(post[k])
    requires s != [] ==> !cut(s[0]) && !cut(s[|s| - 1])
    ensures TrimRight(TrimLeft(pre + s + post, cut), cut) == s
  {
    ConcatAssoc(pre, s, post);
    TrimLeftSkips(pre, s + post, cut);
    if s != [] {
      KeptCore(s, post, cut);
    } else {
      assert s + post == post;
      AllCut(post, cut);
    }
  }

  /** Concatenation is associative. */
  lemma ConcatAssoc(a: string, b: string, c: string)
    ensures a + b + c == a + (b + c)
  {
  }

  /** A string made only of cut characters trims to nothing. */
  lemma AllCut(post: string, cut: char -> bool)
    requires forall k :: 0 <= k < |post| ==> cut(post[k])
    ensures TrimLeft(post, cut) == []
  {
    TrimLeftSkips(post, [], cut);
    assert post + [] == post;
  }

  /** A string that starts and ends outside the cut set survives a trim of the cut characters after it. */
  lemma KeptCore(s: string, post: string, cut: char -> bool)
    requires forall k :: 0 <= k < |post| ==> cut(post[k])
    requires s != [] && !cut(s[0]) && !cut(s[|s| - 1])
    ensures TrimRight(TrimLeft(s + post, cut), cut) == s
  {
    assert (s + post)[0] == s[0];
    assert TrimLeft(s + post, cut) == s + post;
    TrimRightSkips(s, post, cut);
  }

  /** `strings.ReplaceAll(s, string(from), string(to))` for single characters. */
  function ReplaceChar(s: string, from: char, to: char): (r: string)
    ensures |r| == |s|
    ensures forall i :: 0 <= i < |s| ==> r[i] == if s[i] == from then to else s[i]
  {
    seq(|s|, i requires 0 <= i < |s| => if s[i] == from then to else s[i])
  }

  /** Go's `<` on strings: byte-wise order on UTF-8, which is code-point order. */
  predicate LexLess(a: string, b: string)
    decreases |a|
  {
    if a == [] then b != []
    else b != [] && (a[0] < b[0] || (a[0] == b[0] && LexLess(a[1..], b[1..])))
  }

  lemma {:induction false} LexLessIrreflexive(a: string)
    ensures !LexLess(a, a)
    decreases |a|
  {
    if a != [] {
      LexLessIrreflexive(a[1..]);
    }
  }

  lemma {:induction false} LexLessTransitive(a: string, b: string, c: string)
    requires LexLess(a, b) && LexLess(b, c)
    ensures LexLess(a, c)
    decreases |a|
  {
    if a != [] && a[0] == b[0] && b[0] == c[0] {
      LexLessTransitive(a[1..], b[1..], c[1..]);
    }
  }

  lemma {:induction false} LexLessTotal(a: string, b: string)
    ensures a == b || LexLess(a, b) || LexLess(b, a)
    decreases |a|
  {
    if a != [] && b != [] && a[0] == b[0] {
      LexLessTotal(a[1..], b[1..]);
      if a[1..] == b[1..] {
        assert a == [a[0]] + a[1..] && b == [b[0]] + b[1..];
      }
    }
  }

  function DigitChar(d: nat): (c: char)
    requires d < 10
    ensures '0' <= c <= '9' && c as int - '0' as int == d
  {
    (d + '0' as int) as char
  }

  predicate AllDigits(s: string) {
    forall i :: 0 <= i < |s| ==> '0' <= s[i] <= '9'
  }

  /** Decimal rendering of a natural number, no leading zeros (`%d`). */
  function NatToDecimal(n: nat): (r: string)
    ensures |r| >= 1 && AllDigits(r)
    ensures r[0] == '0' ==> n == 0
    decreases n
  {
    if n < 10 then [DigitChar(n)] else NatToDecimal(n / 10) + [DigitChar(n % 10)]
  }

  /** `fmt.Sprintf("%d", n)`. */
  function IntToDecimal(n: int): string {
    if n < 0 then "-" + NatToDecimal(-n) else NatToDecimal(n)
  }

  /** The value a string of decimal digits denotes. */
  function DecimalValue(s: string): nat
    requires AllDigits(s)
    decreases |s|
  {
    if s == [] then 0 else DecimalValue(s[..|s| - 1]) * 10 + (s[|s| - 1] as int - '0' as int)
  }

  /** Reading back the decimal rendering gives the number. */
  lemma {:induction false} DecimalRoundTrip(n: nat)
    ensures DecimalValue(NatToDecimal(n)) == n
    decreases n
  {
    if n >= 10 {
      DecimalRoundTrip(n / 10);
      var s := NatToDecimal(n);
      assert s[..|s| - 1] == NatToDecimal(n / 10);
    }
  }

  /** A negative number renders as a minus sign and the digits of its magnitude. */
  lemma NegativeDecimal(n: int)
    requires n < 0
    ensures |IntToDecimal(n)| >= 2 && IntToDecimal(n)[0] == '-' && IntToDecimal(n)[1..] == NatToDecimal(-n)
  {
  }

  /** Distinct naturals render as distinct digit strings. */
  lemma NatToDecimalInjective(x: nat, y: nat)
    requires NatToDecimal(x) == NatToDecimal(y)
    ensures x == y
  {
    DecimalRoundTrip(x);
    DecimalRoundTrip(y);
  }

  /** The rendering starts with a minus sign exactly for negative numbers. */
  lemma DecimalSign(n: int)
    ensures |IntToDecimal(n)| >= 1
    ensures IntToDecimal(n)[0] == '-' <==> n < 0
  {
    if n >= 0 {
      var d := NatToDecimal(n);
      assert '0' <= d[0] <= '9';
    }
  }

  /** Distinct numbers render as distinct strings. */
  lemma IntToDecimalInjective(a: int, b: int)
    requires IntToDecimal(a) == IntToDecimal(b)
    ensures a == b
  {
    DecimalSign(a);
    DecimalSign(b);
    if a < 0 {
      NegativeDecimal(a);
      NegativeDecimal(b);
      NatToDecimalInjective(-a, -b);
    } else {
      NatToDecimalInjective(a, b);
    }
  }
}
