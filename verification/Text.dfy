/** Text primitives of the Go standard library as the repository uses them: trimming,
    splitting on one separator, and decimal conversion of 64-bit integers. */
module Text {

  datatype Option<+T> = None | Some(value: T)

  datatype Result<+T> = Ok(value: T) | Err(message: string)

  const MIN_INT64 := -0x8000_0000_0000_0000
  const MAX_INT64 := 0x7fff_ffff_ffff_ffff

  predicate InInt64(n: int) {
    MIN_INT64 <= n <= MAX_INT64
  }

  const TWO_TO_64 := 0x1_0000_0000_0000_0000

  /** What a sum or difference of two 64-bit integers is on the machine. */
  function Wrap64(n: int): (r: int)
    requires 2 * MIN_INT64 <= n <= 2 * MAX_INT64 + 1
    ensures InInt64(r) && (r == n <==> InInt64(n))
    ensures n > MAX_INT64 ==> r < 0
  {
    if n > MAX_INT64 then n - TWO_TO_64 else if n < MIN_INT64 then n + TWO_TO_64 else n
  }

  /** The Unicode white space characters. */
  predicate IsSpace(c: char) {
    || '\t' <= c <= '\r' || c == ' ' || c == '\U{85}' || c == '\U{A0}' || c == '\U{1680}'
    || '\U{2000}' <= c <= '\U{200A}' || c == '\U{2028}' || c == '\U{2029}'
    || c == '\U{202F}' || c == '\U{205F}' || c == '\U{3000}'
  }

  /** They are the 25 code points that Unicode lists with the property White_Space. */
  lemma IsSpaceIff(c: char)
    ensures IsSpace(c) <==>
              c as int in {9, 10, 11, 12, 13, 32, 133, 160, 5760, 8192, 8193, 8194, 8195, 8196, 8197, 8198, 8199, 8200, 8201,
                           8202, 8232, 8233, 8239, 8287, 12288}
  {
  }

  function TrimLeft(s: string): (r: string)
    ensures r == "" || !IsSpace(r[0])
    ensures |r| <= |s| && r == s[|s| - |r|..]
  {
    if s != "" && IsSpace(s[0]) then TrimLeft(s[1..]) else s
  }

  function TrimRight(s: string): (r: string)
    ensures r == "" || !IsSpace(r[|r| - 1])
    ensures |r| <= |s| && r == s[..|r|]
  {
    if s != "" && IsSpace(s[|s| - 1]) then TrimRight(s[..|s| - 1]) else s
  }

  function TrimSpace(s: string): (r: string)
    ensures Trimmed(r)
  {
    TrimRight(TrimLeft(s))
  }

  predicate AllSpaces(s: string) {
    forall i | 0 <= i < |s| :: IsSpace(s[i])
  }

  lemma {:induction false} TrimLeftDropsSpaces(s: string)
    ensures AllSpaces(s[..|s| - |TrimLeft(s)|])
  {
    hide IsSpace;
    if s != "" && IsSpace(s[0]) {
      TrimLeftDropsSpaces(s[1..]);
      var n := |s| - |TrimLeft(s)|;
      assert s[..n] == [s[0]] + s[1..][..n - 1];
    }
  }

  lemma {:induction false} TrimRightDropsSpaces(s: string)
    ensures AllSpaces(s[|TrimRight(s)|..])
  {
    hide IsSpace;
    if s != "" && IsSpace(s[|s| - 1]) {
      var init := s[..|s| - 1];
      TrimRightDropsSpaces(init);
      var n := |TrimRight(s)|;
      assert s[n..] == init[n..] + [s[|s| - 1]];
    }
  }

  /** Trimming drops white space at both ends and nothing else. */
  lemma TrimDropsSpaces(s: string) returns (before: string, after: string)
    ensures s == before + TrimSpace(s) + after && AllSpaces(before) && AllSpaces(after)
  {
    hide TrimLeft, TrimRight, AllSpaces, IsSpace, Trimmed;
    var left := TrimLeft(s);
    before, after := s[..|s| - |left|], left[|TrimSpace(s)|..];
    TrimLeftDropsSpaces(s);
    TrimRightDropsSpaces(left);
    assert left == TrimSpace(s) + after;
  }

  predicate Trimmed(s: string) {
    s == "" || (!IsSpace(s[0]) && !IsSpace(s[|s| - 1]))
  }

  predicate HasPrefix(s: string, prefix: string) {
    prefix <= s
  }

  /** `strings.Split` for a separator of one character. */
  function Split(s: string, sep: char): (parts: seq<string>)
    ensures |parts| >= 1
  {
    if s == "" then [""]
    else
      var rest := Split(s[1..], sep);
      if s[0] == sep then [""] + rest else [[s[0]] + rest[0]] + rest[1..]
  }

  lemma {:induction false} SplitWithout(s: string, sep: char)
    requires sep !in s
    ensures Split(s, sep) == [s]
  {
    if s != "" {
      SplitWithout(s[1..], sep);
      assert [s[0]] + s[1..] == s;
    }
  }

  lemma {:induction false} SplitJoin(a: string, sep: char, b: string)
    requires sep !in a
    ensures Split(a + [sep] + b, sep) == [a] + Split(b, sep)
  {
    var s := a + [sep] + b;
    if a == "" {
      assert s[1..] == b;
    } else {
      assert s[1..] == a[1..] + [sep] + b;
      SplitJoin(a[1..], sep, b);
      assert a == [a[0]] + a[1..];
    }
  }

  /** The parts of a text that splits in two. */
  lemma {:induction false} SplitInTwo(s: string, sep: char)
    ensures |Split(s, sep)| == 1 ==> Split(s, sep) == [s] && sep !in s
    ensures |Split(s, sep)| == 2 ==>
              var parts := Split(s, sep);
              s == parts[0] + [sep] + parts[1] && sep !in parts[0] && sep !in parts[1]
  {
    if s != "" {
      SplitInTwo(s[1..], sep);
      assert s == [s[0]] + s[1..];
      var rest := Split(s[1..], sep);
      if |Split(s, sep)| == 2 {
        if s[0] == sep {
          assert s == "" + [sep] + s[1..];
        } else {
          assert s == [s[0]] + (rest[0] + [sep] + rest[1]);
        }
      }
    }
  }

  /** A text splits in two exactly where a single separator stands. */
  lemma SplitInTwoIff(s: string, sep: char, a: string, b: string)
    ensures Split(s, sep) == [a, b] <==> s == a + [sep] + b && sep !in a && sep !in b
  {
    hide Split;
    if Split(s, sep) == [a, b] {
      SplitInTwo(s, sep);
    } else if s == a + [sep] + b && sep !in a && sep !in b {
      SplitJoin(a, sep, b);
      SplitWithout(b, sep);
    }
  }

  // ---- Decimal numbers ----

  predicate AllDigits(s: string) {
    forall i | 0 <= i < |s| :: '0' <= s[i] <= '9'
  }

  function Value(digits: string): (n: nat)
    requires AllDigits(digits)
  {
    if digits == "" then 0
    else 10 * Value(digits[..|digits| - 1]) + (digits[|digits| - 1] as int - '0' as int)
  }

  function FormatNat(n: nat): (s: string)
    ensures s != "" && AllDigits(s)
  {
    var last := [('0' as int + n % 10) as char];
    if n < 10 then last else FormatNat(n / 10) + last
  }

  /** `strconv.FormatInt(n, 10)`, also what the verb %d prints. */
  function FormatInt(n: int): string {
    if n < 0 then "-" + FormatNat(-n) else FormatNat(n)
  }

  /** `strconv.ParseInt(s, 10, 64)`: one optional sign, at least one digit, in range. */
  function ParseInt(s: string): (r: Option<int>)
    ensures r.Some? ==> InInt64(r.value)
  {
    if s == "" then None
    else
      var digits := if s[0] == '-' || s[0] == '+' then s[1..] else s;
      if digits == "" || !AllDigits(digits) then None
      else
        var n: int := if s[0] == '-' then -(Value(digits) as int) else Value(digits);
        if InInt64(n) then Some(n) else None
  }

  lemma {:induction false} ValueOfFormat(n: nat)
    ensures Value(FormatNat(n)) == n
  {
    var s := FormatNat(n);
    if n >= 10 {
      ValueOfFormat(n / 10);
      assert s[..|s| - 1] == FormatNat(n / 10);
    } else {
      assert s[..|s| - 1] == "";
    }
  }

  /** Printing then parsing a 64-bit integer gives it back. */
  lemma ParseFormatInt(n: int)
    requires InInt64(n)
    ensures ParseInt(FormatInt(n)) == Some(n)
  {
    hide Value, FormatNat;
    if n < 0 {
      ValueOfFormat(-n);
      assert ("-" + FormatNat(-n))[1..] == FormatNat(-n);
    } else {
      ValueOfFormat(n);
    }
  }

  /** A printed natural number holds no character that a header parser treats specially. */
  lemma FormatNatPlain(n: nat)
    ensures FormatNat(n) == FormatInt(n)
    ensures Trimmed(FormatNat(n)) && TrimSpace(FormatNat(n)) == FormatNat(n)
    ensures '-' !in FormatNat(n) && '/' !in FormatNat(n) && ',' !in FormatNat(n)
  {
    hide FormatNat;
  }

  lemma TrimSpaceTrimmed(s: string)
    requires Trimmed(s)
    ensures TrimSpace(s) == s
  {
  }

  /** Two decimal strings followed by the same separator split at the same place. */
  lemma SamePrefix(a: string, b: string, x: string, y: string, sep: char)
    requires sep !in a && sep !in b
    requires a + [sep] + x == b + [sep] + y
    ensures a == b && x == y
  {
    var s := a + [sep] + x;
    assert s[|a|] == sep && s[|b|] == sep;
    assert forall i | 0 <= i < |a| :: s[i] == a[i];
    assert forall i | 0 <= i < |b| :: s[i] == b[i];
    assert a == s[..|a|] && b == s[..|b|];
    assert x == s[|a| + 1..] && y == s[|b| + 1..];
  }

  lemma FormatNatInjective(m: nat, n: nat)
    requires FormatNat(m) == FormatNat(n)
    ensures m == n
  {
    ValueOfFormat(m);
    ValueOfFormat(n);
  }
}
