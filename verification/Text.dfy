/** Strings as the repository uses them: trimming, joining and splitting, numbered names, object ids. */
module Text {
  import opened Outcomes

  // ----- trimming

  predicate IsSpace(c: char) {
    c in " \t\n\r"
  }

  function TrimLeft(s: string): string {
    if s != "" && IsSpace(s[0]) then TrimLeft(s[1..]) else s
  }

  function TrimRight(s: string): string {
    if s != "" && IsSpace(s[|s| - 1]) then TrimRight(s[..|s| - 1]) else s
  }

  function Strip(s: string): string {
    TrimRight(TrimLeft(s))
  }

  predicate Trimmed(s: string) {
    s != "" ==> !IsSpace(s[0]) && !IsSpace(s[|s| - 1])
  }

  lemma TrimRightKeepsHead(s: string)
    requires s != "" && !IsSpace(s[0])
    ensures TrimRight(s) != "" && TrimRight(s)[0] == s[0]
    ensures !IsSpace(TrimRight(s)[|TrimRight(s)| - 1])
  {
  }

  lemma StripIsTrimmed(s: string)
    ensures Trimmed(Strip(s))
    ensures Trimmed(s) ==> Strip(s) == s
  {
    var t := TrimLeft(s);
    TrimLeftHead(s);
    if t != "" {
      TrimRightKeepsHead(t);
    }
  }

  lemma TrimLeftHead(s: string)
    ensures TrimLeft(s) != "" ==> !IsSpace(TrimLeft(s)[0])
  {
  }

  /** Only blank text strips to nothing. */
  lemma StripKeeps(s: string, i: nat)
    requires i < |s| && !IsSpace(s[i])
    ensures Strip(s) != ""
  {
    TrimLeftKeeps(s, i);
    TrimLeftHead(s);
    TrimRightKeepsHead(TrimLeft(s));
  }

  lemma {:induction false} TrimLeftKeeps(s: string, i: nat)
    requires i < |s| && !IsSpace(s[i])
    ensures TrimLeft(s) != ""
  {
    if IsSpace(s[0]) {
      TrimLeftKeeps(s[1..], i - 1);
    }
  }

  lemma {:induction false} StripPadding(s: string)
    requires s != "" && Trimmed(s)
    ensures Strip(s) == Strip(" " + s) == Strip(s + " ") == Strip(" " + s + " ") == s
  {
    assert (" " + s)[1..] == s;
    assert (" " + s + " ")[1..] == s + " ";
    assert (s + " ")[..|s + " "| - 1] == s;
  }

  /** Case folding, for the letters the repository's fixed vocabularies are written in. */
  function Fold(s: string): (r: string)
    ensures |r| == |s|
  {
    seq(|s|, i requires 0 <= i < |s| => if 'A' <= s[i] <= 'Z' then (s[i] as int + 32) as char else s[i])
  }

  // ----- joining and splitting

  function Join(parts: seq<string>, separator: string): string {
    if |parts| == 0 then ""
    else if |parts| == 1 then parts[0]
    else parts[0] + separator + Join(parts[1..], separator)
  }

  /** `s.split(c)`: always at least one piece. */
  function Split(s: string, c: char): (pieces: seq<string>)
    ensures |pieces| > 0
  {
    if s == "" then [""]
    else
      var rest := Split(s[1..], c);
      if s[0] == c then [""] + rest else [[s[0]] + rest[0]] + rest[1..]
  }

  lemma {:induction false} SplitAtFirst(head: string, c: char, tail: string)
    requires c !in head
    ensures Split(head + [c] + tail, c) == [head] + Split(tail, c)
    ensures Split(head, c) == [head]
  {
    if head == "" {
      assert head + [c] + tail == [c] + tail;
      assert ([c] + tail)[1..] == tail;
    } else {
      assert (head + [c] + tail)[1..] == head[1..] + [c] + tail;
      SplitAtFirst(head[1..], c, tail);
      assert [head[0]] + head[1..] == head;
    }
  }

  /** `s.rsplit(c, 1)[-1]`: what follows the last `c`, or all of `s`. */
  function AfterLast(s: string, c: char): (r: string)
    ensures c !in r && |r| <= |s| && s[|s| - |r|..] == r
  {
    if s == "" then ""
    else if c in s[1..] then AfterLast(s[1..], c)
    else if s[0] == c then s[1..]
    else s
  }

  /** `s.split(c, 1)[0]`: what precedes the first `c`, or all of `s`. */
  function BeforeFirst(s: string, c: char): (r: string)
    ensures c !in r && r <= s
    ensures c !in s ==> r == s
    ensures c in s ==> |r| < |s| && s[|r|] == c
  {
    if s == "" || s[0] == c then "" else [s[0]] + BeforeFirst(s[1..], c)
  }

  /** `s.replace(a, b)`, for single characters. */
  function Replaced(s: string, a: char, b: char): string {
    if s == "" then "" else [if s[0] == a then b else s[0]] + Replaced(s[1..], a, b)
  }

  /** Replacing is splitting and joining. */
  lemma {:induction false} ReplacedIsJoined(s: string, a: char, b: char)
    ensures Replaced(s, a, b) == Join(Split(s, a), [b])
  {
    if s != "" {
      ReplacedIsJoined(s[1..], a, b);
      var rest := Split(s[1..], a);
      if s[0] == a {
        assert Split(s, a)[1..] == rest;
      } else {
        JoinHead([s[0]], rest[0], rest[1..], [b]);
        assert [rest[0]] + rest[1..] == rest;
      }
    }
  }

  lemma {:induction false} NothingReplaced(s: string, a: char, b: char)
    requires a !in s
    ensures Replaced(s, a, b) == s
  {
    if s != "" {
      NothingReplaced(s[1..], a, b);
      assert [s[0]] + s[1..] == s;
    }
  }

  lemma JoinHead(before: string, head: string, tail: seq<string>, separator: string)
    ensures Join([before + head] + tail, separator) == before + Join([head] + tail, separator)
  {
    if tail != [] {
      assert ([before + head] + tail)[1..] == tail && ([head] + tail)[1..] == tail;
    }
  }

  function Underscored(s: string): string {
    Replaced(s, ' ', '_')
  }

  // ----- numbered names

  function Decimal(n: nat): (r: string)
    ensures n < 10 <==> |r| == 1
    ensures |r| > 0
  {
    if n < 10 then ["0123456789"[n]] else Decimal(n / 10) + ["0123456789"[n % 10]]
  }

  lemma {:induction false} DecimalInjective(m: nat, n: nat)
    requires Decimal(m) == Decimal(n)
    ensures m == n
  {
    if m >= 10 && n >= 10 {
      assert Decimal(m)[..|Decimal(m)| - 1] == Decimal(m / 10);
      assert Decimal(n)[..|Decimal(n)| - 1] == Decimal(n / 10);
      DecimalInjective(m / 10, n / 10);
      assert Decimal(m)[|Decimal(m)| - 1] == "0123456789"[m % 10];
      assert Decimal(n)[|Decimal(n)| - 1] == "0123456789"[n % 10];
    }
  }

  function Numbered(base: string, separator: string, index: nat): string {
    base + separator + Decimal(index)
  }

  lemma NumberedInjective(base: string, separator: string, i: nat, j: nat)
    requires Numbered(base, separator, i) == Numbered(base, separator, j)
    ensures i == j
  {
    var k := |base + separator|;
    assert Numbered(base, separator, i)[k..] == Decimal(i);
    assert Numbered(base, separator, j)[k..] == Decimal(j);
    DecimalInjective(i, j);
  }

  /** The first numbered name from `index` on that is not taken. */
  function FirstFree(base: string, separator: string, taken: set<string>, index: nat): (name: string)
    ensures name !in taken
    ensures exists j: nat :: index <= j && name == Numbered(base, separator, j)
                             && forall k: nat :: index <= k < j ==> Numbered(base, separator, k) in taken
    decreases |taken|
  {
    var candidate := Numbered(base, separator, index);
    if candidate !in taken then
      candidate
    else
      var name := FirstFree(base, separator, taken - {candidate}, index + 1);
      assert name !in taken by {
        var j: nat :| index + 1 <= j && name == Numbered(base, separator, j);
        if name == candidate { NumberedInjective(base, separator, index, j); }
      }
      assert exists j: nat :: index <= j && name == Numbered(base, separator, j)
                              && forall k: nat :: index <= k < j ==> Numbered(base, separator, k) in taken by {
        var j: nat :| index + 1 <= j && name == Numbered(base, separator, j)
                      && forall k: nat :: index + 1 <= k < j ==> Numbered(base, separator, k) in taken - {candidate};
        assert forall k: nat :: index <= k < j ==> Numbered(base, separator, k) in taken;
      }
      name
  }

  /** `base` itself when free, else `base` + separator + the least free number from 2. */
  function UniqueName(base: string, separator: string, taken: set<string>): (name: string)
    ensures name !in taken
  {
    if base !in taken then base else FirstFree(base, separator, taken, 2)
  }

  lemma UniqueNameIsFree(base: string, separator: string, taken: set<string>)
    ensures UniqueName(base, separator, taken) !in taken
  {
  }

  method AllocateName(base: string, separator: string, taken: set<string>) returns (name: string)
    ensures name == UniqueName(base, separator, taken)
  {
    if base !in taken {
      return base;
    }
    var index := 2;
    ghost var rest := taken;
    while Numbered(base, separator, index) in taken
      invariant index >= 2 && rest <= taken
      invariant forall k: nat :: index <= k && Numbered(base, separator, k) in taken ==> Numbered(base, separator, k) in rest
      invariant FirstFree(base, separator, taken, 2) == FirstFree(base, separator, rest, index)
      decreases |rest|
    {
      ghost var candidate := Numbered(base, separator, index);
      forall k: nat | index < k && Numbered(base, separator, k) in taken
        ensures Numbered(base, separator, k) in rest - {candidate}
      {
        if Numbered(base, separator, k) == candidate { NumberedInjective(base, separator, k, index); }
      }
      rest := rest - {candidate};
      index := index + 1;
    }
    name := Numbered(base, separator, index);
  }

  // ----- object ids

  function LowerHex(c: char): char {
    if 'A' <= c <= 'F' then (c as int + 32) as char else c
  }

  predicate IsHex(c: char) {
    '0' <= c <= '9' || 'a' <= c <= 'f'
  }

  /** The hexadecimal digits of an id text, in lower case, hyphens dropped. */
  function HexDigits(text: string): string {
    if text == "" then ""
    else Digit(text[0]) + HexDigits(text[1..])
  }

  function Digit(c: char): string {
    if c == '-' then "" else [LowerHex(c)]
  }

  function Hyphenate(digits: string): string
    requires |digits| == 32
  {
    digits[..8] + "-" + digits[8..12] + "-" + digits[12..16] + "-" + digits[16..20] + "-" + digits[20..]
  }

  /** `str(UUID(text))`: the one spelling every text of the same UUID is normalized to. */
  function Canonical(text: string): Option<string> {
    var digits := HexDigits(text);
    if |digits| == 32 && (forall c | c in digits :: IsHex(c)) then Some(Hyphenate(digits)) else None
  }

  /** An id text holds nothing but hexadecimal digits and hyphens. */
  lemma CanonicalLetters(text: string, i: nat)
    requires Canonical(text).Some? && i < |text|
    ensures text[i] == '-' || IsHex(LowerHex(text[i]))
  {
    if text[i] != '-' {
      HexDigitsContains(text, i);
    }
  }

  lemma {:induction false} HexDigitsContains(text: string, i: nat)
    requires i < |text| && text[i] != '-'
    ensures LowerHex(text[i]) in HexDigits(text)
  {
    if i > 0 {
      HexDigitsContains(text[1..], i - 1);
    }
  }

  lemma {:induction false} HexDigitsAppend(a: string, b: string)
    ensures HexDigits(a + b) == HexDigits(a) + HexDigits(b)
  {
    hide Digit;
    if a == "" {
      assert a + b == b;
    } else {
      assert (a + b)[1..] == a[1..] + b && (a + b)[0] == a[0];
      HexDigitsAppend(a[1..], b);
      Regrouped(Digit(a[0]), HexDigits(a[1..]), HexDigits(b));
    }
  }

  lemma Regrouped(a: string, b: string, c: string)
    ensures a + (b + c) == (a + b) + c
  {
  }

  lemma {:induction false} HexDigitsOfHex(digits: string)
    requires forall c | c in digits :: IsHex(c)
    ensures HexDigits(digits) == digits
  {
    if digits != "" {
      assert digits[0] in digits;
      HexDigitsOfHex(digits[1..]);
    }
  }

  lemma HyphenIsNoDigit(group: string)
    ensures HexDigits("-" + group) == HexDigits(group)
  {
    assert ("-" + group)[1..] == group;
  }

  lemma HexDigitsHyphen(head: string, group: string)
    requires forall c | c in group :: IsHex(c)
    ensures HexDigits(head + "-" + group) == HexDigits(head) + group
  {
    HexDigitsOfHex(group);
    HyphenIsNoDigit(group);
    hide HexDigits, IsHex;
    assert head + "-" + group == head + ("-" + group);
    HexDigitsAppend(head, "-" + group);
  }

  /** An id of one digit, as people may write it and as `str(UUID(..))` writes it. */
  function Unhyphenated(digit: char): string {
    seq(32, _ => digit)
  }

  function SampleId(digit: char): string {
    Hyphenate(Unhyphenated(digit))
  }

  lemma SampleIdSpellings(digit: char)
    requires IsHex(digit)
    ensures Canonical(SampleId(digit)) == Canonical(Unhyphenated(digit)) == Some(SampleId(digit))
    ensures SampleId(digit) != Unhyphenated(digit) && SampleId(digit) != "" && SampleId(digit)[0] == digit
  {
    HexDigitsOfHex(Unhyphenated(digit));
    CanonicalIdempotent(Unhyphenated(digit));
  }

  /** Normalizing an id twice is normalizing it once. */
  lemma CanonicalIdempotent(text: string)
    requires Canonical(text).Some?
    ensures Canonical(Canonical(text).value) == Canonical(text)
  {
    var d := HexDigits(text);
    HexDigitsOfHex(d[..8]);
    HexDigitsHyphen(d[..8], d[8..12]);
    HexDigitsHyphen(d[..8] + "-" + d[8..12], d[12..16]);
    HexDigitsHyphen(d[..8] + "-" + d[8..12] + "-" + d[12..16], d[16..20]);
    HexDigitsHyphen(d[..8] + "-" + d[8..12] + "-" + d[12..16] + "-" + d[16..20], d[20..]);
    assert d[..8] + d[8..12] + d[12..16] + d[16..20] + d[20..] == d;
  }

  // ----- what these functions are, told outright

  /** Trimming takes spaces off both ends and nothing else. */
  lemma StripIs(s: string)
    ensures exists i, j | 0 <= i <= j <= |s| ::
      Strip(s) == s[i..j] && (forall k | 0 <= k < i || j <= k < |s| :: s[k] in " \t\n\r") && Trimmed(s[i..j])
  {
    var i := LeftEnd(s);
    var t := TrimLeft(s);
    var j := RightEnd(t);
    StripIsTrimmed(s);
    hide TrimLeft, TrimRight, Trimmed;
    assert s[i..i + j] == t[..j];
    assert Strip(s) == s[i..i + j];
    forall k | 0 <= k < i || i + j <= k < |s| ensures s[k] in " \t\n\r" {
      if k >= i + j {
        assert s[k] == t[k - i];
      }
    }
  }

  lemma {:induction false} LeftEnd(s: string) returns (i: nat)
    ensures i <= |s| && TrimLeft(s) == s[i..] && forall k | 0 <= k < i :: s[k] in " \t\n\r"
  {
    if s != "" && IsSpace(s[0]) {
      var rest := LeftEnd(s[1..]);
      i := rest + 1;
      forall k | 0 <= k < i ensures s[k] in " \t\n\r" {
        assert k > 0 ==> s[k] == s[1..][k - 1];
      }
    } else {
      i := 0;
    }
  }

  lemma {:induction false} RightEnd(s: string) returns (j: nat)
    ensures j <= |s| && TrimRight(s) == s[..j] && forall k | j <= k < |s| :: s[k] in " \t\n\r"
  {
    if s != "" && IsSpace(s[|s| - 1]) {
      j := RightEnd(s[..|s| - 1]);
    } else {
      j := |s|;
    }
  }

  const UPPER := "ABCDEFGHIJKLMNOPQRSTUVWXYZ"
  const LOWER := "abcdefghijklmnopqrstuvwxyz"

  /** Folding puts each capital letter in lower case and leaves everything else. */
  lemma FoldIs(s: string, i: nat)
    requires i < |s|
    ensures (exists k: nat | k < 26 :: s[i] == UPPER[k] && Fold(s)[i] == LOWER[k]) || (s[i] !in UPPER && Fold(s)[i] == s[i])
  {
    if 'A' <= s[i] <= 'Z' {
      var k := s[i] as int - 'A' as int;
      assert UPPER[k] == s[i] && LOWER[k] == Fold(s)[i];
    } else {
      assert forall k: nat | k < 26 :: 'A' <= UPPER[k] <= 'Z';
    }
  }

  /** The number that a text of decimal digits stands for. */
  function Read(digits: string): int {
    if digits == "" then 0 else 10 * Read(digits[..|digits| - 1]) + (digits[|digits| - 1] as int - '0' as int)
  }

  /** A number is written without leading zeros and read back as itself. */
  lemma {:induction false} DecimalReads(n: nat)
    ensures Read(Decimal(n)) == n && (forall c | c in Decimal(n) :: '0' <= c <= '9') && (n > 0 ==> Decimal(n)[0] != '0')
  {
    var digit := "0123456789"[n % 10];
    assert digit as int - '0' as int == n % 10;
    if n >= 10 {
      DecimalReads(n / 10);
      assert Decimal(n)[..|Decimal(n)| - 1] == Decimal(n / 10);
    } else {
      assert Decimal(n)[..0] == "";
    }
  }

  /** Joining the pieces of a split restores the text. */
  lemma {:induction false} SplitThenJoin(s: string, c: char)
    ensures Join(Split(s, c), [c]) == s
  {
    ReplacedIsJoined(s, c, c);
    ReplacedBySame(s, c);
  }

  lemma {:induction false} ReplacedBySame(s: string, c: char)
    ensures Replaced(s, c, c) == s
  {
    if s != "" {
      ReplacedBySame(s[1..], c);
      assert [s[0]] + s[1..] == s;
    }
  }

  /** A normalized id: thirty-two lower-case hexadecimal digits, the text's own, in groups of 8, 4, 4, 4 and 12. */
  lemma CanonicalIs(text: string)
    requires Canonical(text).Some?
    ensures var id := Canonical(text).value;
      && |id| == 36 && id[8] == id[13] == id[18] == id[23] == '-'
      && (forall i | 0 <= i < 36 && i !in [8, 13, 18, 23] :: id[i] in "0123456789abcdef")
      && HexDigits(text) == id[..8] + id[9..13] + id[14..18] + id[19..23] + id[24..]
  {
    var d := HexDigits(text);
    var id := Hyphenate(d);
    HyphenateGroups(d);
    forall i | 0 <= i < 36 && i !in [8, 13, 18, 23] ensures id[i] in "0123456789abcdef" {
      var k := if i < 8 then i else if i < 13 then i - 1 else if i < 18 then i - 2 else if i < 23 then i - 3 else i - 4;
      HyphenateAt(d, i, k);
      assert d[k] in d && IsHex(d[k]);
      HexLetter(d[k]);
    }
  }

  lemma HyphenateGroups(d: string)
    requires |d| == 32
    ensures var id := Hyphenate(d);
      && |id| == 36 && id[8] == id[13] == id[18] == id[23] == '-'
      && d == id[..8] + id[9..13] + id[14..18] + id[19..23] + id[24..]
  {
    var id := Hyphenate(d);
    assert id[..8] == d[..8] && id[9..13] == d[8..12] && id[14..18] == d[12..16] && id[19..23] == d[16..20] && id[24..] == d[20..];
    assert d == d[..8] + d[8..12] + d[12..16] + d[16..20] + d[20..];
  }

  lemma HyphenateAt(d: string, i: nat, k: nat)
    requires |d| == 32 && i < 36 && i !in [8, 13, 18, 23]
    requires k == if i < 8 then i else if i < 13 then i - 1 else if i < 18 then i - 2 else if i < 23 then i - 3 else i - 4
    ensures Hyphenate(d)[i] == d[k]
  {
  }

  lemma HexLetter(c: char)
    requires IsHex(c)
    ensures c in "0123456789abcdef"
  {
    var letters := "0123456789abcdef";
    assert letters[if c <= '9' then c as int - '0' as int else c as int - 'a' as int + 10] == c;
  }

  /** Letters A to F are lowered, everything else stays. */
  lemma LowerHexIs(c: char)
    ensures (exists k: nat | k < 6 :: c == UPPER[k] && LowerHex(c) == LOWER[k]) || (c !in UPPER[..6] && LowerHex(c) == c)
  {
    if 'A' <= c <= 'F' {
      var k := c as int - 'A' as int;
      assert UPPER[k] == c && LOWER[k] == LowerHex(c);
    } else {
      assert forall k: nat | k < 6 :: 'A' <= UPPER[k] <= 'F';
    }
  }

  /** A text has a normalized id exactly when, hyphens dropped and letters lowered, it is thirty-two hexadecimal digits. */
  lemma CanonicalIff(text: string)
    ensures Canonical(text).Some? <==>
      |HexDigits(text)| == 32 && forall i | 0 <= i < |text| && text[i] != '-' :: text[i] in "0123456789abcdefABCDEF"
  {
    forall i | 0 <= i < |text| && text[i] != '-' ensures text[i] in "0123456789abcdefABCDEF" <==> IsHex(LowerHex(text[i])) {
      LowerHexLetter(text[i]);
    }
    DigitsOfText(text);
    if Canonical(text).Some? {
      forall i | 0 <= i < |text| && text[i] != '-' ensures IsHex(LowerHex(text[i])) {
        CanonicalLetters(text, i);
      }
    }
  }

  lemma LowerHexLetter(c: char)
    ensures c in "0123456789abcdefABCDEF" <==> IsHex(LowerHex(c))
  {
    var letters := "0123456789abcdefABCDEF";
    if IsHex(LowerHex(c)) {
      var i := if c <= '9' then c as int - '0' as int else if c <= 'F' then c as int - 'A' as int + 16 else c as int - 'a' as int + 10;
      assert letters[i] == c;
    }
  }

  lemma {:induction false} DigitsOfText(text: string)
    ensures forall c | c in HexDigits(text) :: exists i | 0 <= i < |text| :: text[i] != '-' && c == LowerHex(text[i])
  {
    hide LowerHex;
    if text != "" {
      DigitsOfText(text[1..]);
      forall c | c in HexDigits(text) ensures exists i | 0 <= i < |text| :: text[i] != '-' && c == LowerHex(text[i]) {
        if c in HexDigits(text[1..]) {
          var i :| 0 <= i < |text[1..]| && text[1..][i] != '-' && c == LowerHex(text[1..][i]);
          assert text[i + 1] == text[1..][i];
        } else {
          assert c in Digit(text[0]);
          assert text[0] != '-' && c == LowerHex(text[0]);
        }
      }
    }
  }
}
