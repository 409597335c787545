/** The two headers of a fragment upload: the replica list and the write quorum, as written and as read back. */
module Headers {
  import opened Collections
  import opened Names
  import opened Planner

  // ---- The replica header -------------------------------------------------------

  /** strings.Join(addrs, ","). */
  function Join(addrs: seq<string>): string {
    if addrs == [] then ""
    else if |addrs| == 1 then addrs[0]
    else addrs[0] + "," + Join(addrs[1..])
  }

  /** strings.Split(s, ","). */
  function Split(s: string): (parts: seq<string>)
    ensures |parts| > 0
  {
    if s == "" then [""]
    else
      var rest := Split(s[1..]);
      if s[0] == ',' then [""] + rest else [[s[0]] + rest[0]] + rest[1..]
  }

  /** unicode.IsSpace. */
  predicate IsSpace(c: char) {
    || '\U{0009}' <= c <= '\U{000D}' || c == ' ' || c == '\U{0085}' || c == '\U{00A0}' || c == '\U{1680}'
    || '\U{2000}' <= c <= '\U{200A}' || c == '\U{2028}' || c == '\U{2029}' || c == '\U{202F}' || c == '\U{205F}'
    || c == '\U{3000}'
  }

  /** strings.TrimSpace. */
  function TrimSpace(s: string): string {
    if s == "" then ""
    else if IsSpace(s[0]) then TrimSpace(s[1..])
    else if IsSpace(s[|s| - 1]) then TrimSpace(s[..|s| - 1])
    else s
  }

  lemma {:induction false} TrimmedIsBare(s: string)
    ensures var t := TrimSpace(s);
      (t != "" ==> !IsSpace(t[0]) && !IsSpace(t[|t| - 1])) && forall c :: c in t ==> c in s
  {
    if s == "" {
    } else if IsSpace(s[0]) {
      TrimmedIsBare(s[1..]);
    } else if IsSpace(s[|s| - 1]) {
      TrimmedIsBare(s[..|s| - 1]);
    }
  }

  predicate PlainBlanks(s: string) {
    forall i :: 0 <= i < |s| ==> s[i] == ' ' || s[i] == '\t' || s[i] == '\r' || s[i] == '\n'
  }

  /** Blanks around an address are dropped, and nothing else is. */
  lemma {:induction false} TrimsPadding(pad: string, a: string, tail: string)
    requires PlainBlanks(pad) && PlainBlanks(tail)
    requires a != "" && '!' <= a[0] <= '~' && '!' <= a[|a| - 1] <= '~'
    ensures TrimSpace(pad + a + tail) == a
    decreases |pad| + |tail|
  {
    var s := pad + a + tail;
    if pad != "" {
      assert s[0] == pad[0] && s[1..] == pad[1..] + a + tail;
      TrimsPadding(pad[1..], a, tail);
    } else if tail != "" {
      assert s[0] == a[0] && s[|s| - 1] == tail[|tail| - 1];
      assert s[..|s| - 1] == pad + a + tail[..|tail| - 1];
      TrimsPadding(pad, a, tail[..|tail| - 1]);
    } else {
      assert s == a;
    }
  }

  /** What one part of the header contributes. */
  function Kept(part: string): seq<string> {
    if TrimSpace(part) == "" then [] else [TrimSpace(part)]
  }

  /** The non-empty trimmed parts: the addresses the handler fans out to. */
  function NonEmpty(parts: seq<string>): seq<string> {
    FlatMap(Kept, parts)
  }

  method ReplicaAddrs(header: string) returns (addrs: seq<string>)
    ensures addrs == NonEmpty(Split(header))
  {
    var parts := Split(header);
    addrs := [];
    for i := 0 to |parts|
      invariant addrs == NonEmpty(parts[..i])
    {
      assert parts[..i + 1][..i] == parts[..i];
      var addr := TrimSpace(parts[i]);
      if addr == "" {
        continue;
      }
      addrs := addrs + [addr];
    }
    assert parts[..|parts|] == parts;
  }

  /** An address the header can carry: no comma, no surrounding space, not empty. */
  predicate Clean(addr: string) {
    addr != "" && ',' !in addr && !IsSpace(addr[0]) && !IsSpace(addr[|addr| - 1])
  }

  lemma {:induction false} SplitPiece(a: string, s: string)
    requires ',' !in a
    ensures Split(a + "," + s) == [a] + Split(s)
    ensures Split(a) == [a]
  {
    if a == "" {
      assert a + "," + s == "," + s;
      assert (a + "," + s)[1..] == s;
    } else {
      SplitPiece(a[1..], s);
      assert (a + "," + s)[1..] == a[1..] + "," + s;
      assert a[0] in a;
      assert [a[0]] + a[1..] == a;
    }
  }

  lemma NonEmptyAppend(p: string, ps: seq<string>)
    ensures NonEmpty([p] + ps) == Kept(p) + NonEmpty(ps)
  {
    FlatMapJoin(Kept, [p], ps);
    FlatMapOne(Kept, p);
  }

  lemma {:induction false} SplitNoCommas(s: string)
    ensures forall p :: p in Split(s) ==> ',' !in p
  {
    if s != "" {
      SplitNoCommas(s[1..]);
      var rest := Split(s[1..]);
      assert rest[0] in rest;
      assert forall p :: p in rest[1..] ==> p in rest;
    }
  }

  lemma {:induction false} PartsAreClean(parts: seq<string>)
    requires forall p :: p in parts ==> ',' !in p
    ensures forall a :: a in NonEmpty(parts) ==> Clean(a)
  {
    if parts != [] {
      PartsAreClean(parts[..|parts| - 1]);
      TrimmedIsBare(parts[|parts| - 1]);
      assert parts[|parts| - 1] in parts;
    }
  }

  lemma {:induction false} CleanRoundTrip(addrs: seq<string>)
    requires forall a :: a in addrs ==> Clean(a)
    ensures NonEmpty(Split(Join(addrs))) == addrs
  {
    if addrs == [] {
      assert [""][..0] == [];
    } else {
      var a, rest := addrs[0], addrs[1..];
      assert Clean(a);
      SplitPiece(a, Join(rest));
      assert addrs == [a] + rest;
      if rest == [] {
        NonEmptyAppend(a, []);
        assert [a] + [] == [a];
      } else {
        assert Join(addrs) == a + "," + Join(rest);
        CleanRoundTrip(rest);
        NonEmptyAppend(a, Split(Join(rest)));
      }
    }
  }

  /** What the client joins into the header is what the handler takes out of it, exactly when every address is clean. */
  lemma HeaderRoundTripIff(addrs: seq<string>)
    ensures NonEmpty(Split(Join(addrs))) == addrs <==> forall a :: a in addrs ==> Clean(a)
  {
    SplitNoCommas(Join(addrs));
    PartsAreClean(Split(Join(addrs)));
    if forall a :: a in addrs ==> Clean(a) {
      CleanRoundTrip(addrs);
    }
  }

  // ---- The write quorum header ----------------------------------------------------

  predicate IsDigit(c: char) {
    '0' <= c <= '9'
  }

  function LeadingDigits(s: string): (d: string)
    ensures |d| <= |s| && d == s[..|d|] && forall i :: 0 <= i < |d| ==> IsDigit(d[i])
  {
    if s != "" && IsDigit(s[0]) then [s[0]] + LeadingDigits(s[1..]) else ""
  }

  function DigitValue(c: char): nat
    requires IsDigit(c)
  {
    c as int - '0' as int
  }

  function Number(digits: string): int
    requires forall i :: 0 <= i < |digits| ==> IsDigit(digits[i])
  {
    if digits == "" then 0
    else Number(digits[..|digits| - 1]) * 10 + DigitValue(digits[|digits| - 1])
  }

  /** Blanks before a number; a line break is not one of them. */
  function SkipBlanks(s: string): string {
    if s != "" && IsSpace(s[0]) && s[0] != '\n' then SkipBlanks(s[1..]) else s
  }

  /** A value the scanner accepts: some digits, within 64 bits. */
  function Fitting(digits: string, n: int): Option<Int64> {
    if digits != "" && MIN_INT64 <= n <= MAX_INT64 then Some(n) else None
  }

  function Unsigned(t: string): int {
    Number(LeadingDigits(t))
  }

  /** fmt.Sscanf with "%d" into an int: the number the text starts with, if it has one that fits 64 bits. */
  function ScanInt(s: string): Option<Int64> {
    var t := SkipBlanks(s);
    if t != "" && t[0] == '-' then Fitting(LeadingDigits(t[1..]), -Unsigned(t[1..]))
    else if t != "" && t[0] == '+' then Fitting(LeadingDigits(t[1..]), Unsigned(t[1..]))
    else Fitting(LeadingDigits(t), Unsigned(t))
  }

  /** parseIntHeader with default 2. */
  function WriteQuorum(header: string): (w: nat)
    ensures w >= 1
  {
    var n := ScanInt(header);
    if n.Some? && n.value > 0 then n.value else 2
  }

  /** fmt's "%d". */
  function Shown(n: int): string {
    if n < 0 then "-" + Decimal(-n) else Decimal(n)
  }

  lemma {:induction false} AllDigitsLead(s: string)
    requires forall i :: 0 <= i < |s| ==> IsDigit(s[i])
    ensures LeadingDigits(s) == s
  {
    if s != "" {
      AllDigitsLead(s[1..]);
    }
  }

  lemma {:induction false} NumberOfDecimal(n: nat)
    ensures Number(Decimal(n)) == n
  {
    if n >= 10 {
      NumberOfDecimal(n / 10);
      assert Decimal(n)[..|Decimal(n)| - 1] == Decimal(n / 10);
    } else {
      assert Decimal(n)[..0] == "";
    }
  }

  lemma ScanDigits(n: nat)
    ensures LeadingDigits(Decimal(n)) == Decimal(n) && Number(Decimal(n)) == n && Decimal(n) != ""
    ensures SkipBlanks(Decimal(n)) == Decimal(n) && Decimal(n)[0] != '-' && Decimal(n)[0] != '+'
  {
    AllDigitsLead(Decimal(n));
    NumberOfDecimal(n);
    assert IsDigit(Decimal(n)[0]);
  }

  lemma ScanNegative(n: nat)
    requires n <= -MIN_INT64
    ensures ScanInt("-" + Decimal(n)).Some? && ScanInt("-" + Decimal(n)).value == 0 - n
  {
    ScanDigits(n);
    var t := "-" + Decimal(n);
    assert t[1..] == Decimal(n) && SkipBlanks(t) == t;
  }

  lemma {:induction false} LeadingDigitsThen(d: string, tail: string)
    requires forall i :: 0 <= i < |d| ==> IsDigit(d[i])
    requires tail == "" || !IsDigit(tail[0])
    ensures LeadingDigits(d + tail) == d
  {
    if d == "" {
      assert d + tail == tail;
    } else {
      assert (d + tail)[0] == d[0] && (d + tail)[1..] == d[1..] + tail;
      LeadingDigitsThen(d[1..], tail);
    }
  }

  lemma {:induction false} SkipsBlanks(pad: string, t: string)
    requires PlainBlanks(pad) && '\n' !in pad && t != "" && !IsSpace(t[0])
    ensures SkipBlanks(pad + t) == t
  {
    if pad == "" {
      assert pad + t == t;
    } else {
      assert (pad + t)[0] == pad[0] && (pad + t)[1..] == pad[1..] + t;
      SkipsBlanks(pad[1..], t);
    }
  }

  /** The scanner takes a number after blanks, with or without a sign, and does not mind what follows it; one beyond 64
      bits it refuses. */
  lemma ScansNumber(pad: string, n: nat, tail: string)
    requires PlainBlanks(pad) && '\n' !in pad && (tail == "" || !('0' <= tail[0] <= '9'))
    ensures ScanInt(pad + (Decimal(n) + tail)) == if n <= MAX_INT64 then Some(n) else None
    ensures ScanInt(pad + ("+" + (Decimal(n) + tail))) == if n <= MAX_INT64 then Some(n) else None
    ensures var negative := ScanInt(pad + ("-" + (Decimal(n) + tail)));
      (negative.Some? <==> n <= MAX_INT64 + 1) && (negative.Some? ==> negative.value == 0 - n)
  {
    var t := Decimal(n) + tail;
    ScansTail(n, tail);
    SkipsBlanks(pad, t);
    ScansPlus(pad, t);
    ScansMinus(pad, t);
  }

  lemma ScansPlus(pad: string, t: string)
    requires PlainBlanks(pad) && '\n' !in pad
    ensures ScanInt(pad + ("+" + t)) == Fitting(LeadingDigits(t), Unsigned(t))
  {
    var u := "+" + t;
    SkipsBlanks(pad, u);
    assert u[0] == '+' && u[1..] == t;
  }

  lemma ScansMinus(pad: string, t: string)
    requires PlainBlanks(pad) && '\n' !in pad
    ensures ScanInt(pad + ("-" + t)) == Fitting(LeadingDigits(t), -Unsigned(t))
  {
    var u := "-" + t;
    SkipsBlanks(pad, u);
    assert u[0] == '-' && u[1..] == t;
  }

  lemma ScansTail(n: nat, tail: string)
    requires tail == "" || !('0' <= tail[0] <= '9')
    ensures var t := Decimal(n) + tail;
      t != "" && IsDigit(t[0]) && LeadingDigits(t) == Decimal(n) && Unsigned(t) == n && LeadingDigits(t) != ""
  {
    ScanDigits(n);
    assert (Decimal(n) + tail)[0] == Decimal(n)[0] && IsDigit(Decimal(n)[0]);
    LeadingDigitsThen(Decimal(n), tail);
  }

  /** Without a number there is none, and the handler falls back to 2. */
  lemma ScansNothing(header: string)
    requires header == "" || ('!' <= header[0] <= '~' && !('0' <= header[0] <= '9') && header[0] != '+'
      && header[0] != '-')
    ensures ScanInt(header) == None && WriteQuorum(header) == 2
  {
  }

  lemma ScanShown(n: Int64)
    ensures ScanInt(Shown(n)) == Some(n)
  {
    if n < 0 {
      ScanNegative(-(n as int));
    } else {
      ScanDigits(n);
    }
  }

  /** The handler works with the client's write quorum exactly when it is positive; any other becomes 2. */
  lemma QuorumHeaderIff(w: Int64)
    ensures WriteQuorum(Shown(w)) == w <==> w > 0
    ensures w <= 0 ==> WriteQuorum(Shown(w)) == 2
  {
    ScanShown(w);
  }
}
