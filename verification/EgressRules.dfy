/** Text form of networks, the ranges no guest may reach and the validation of
    allowlist rules (crates/domain/src/egress.rs). */
module EgressRulesModel {
  import opened Prelude
  import opened Texts
  import opened EgressModel

  // ---------------------------------------------------------------- decimal text

  function Value(s: string): nat
    requires AllDigits(s)
  {
    if s == "" then 0 else Value(s[..|s| - 1]) * 10 + DigitValue(s[|s| - 1])
  }

  /** Number of leading digits. */
  function Span(s: string): (k: nat)
    ensures k <= |s| && AllDigits(s[..k]) && (k < |s| ==> !IsDigit(s[k]))
  {
    if s == "" || !IsDigit(s[0]) then 0
    else
      assert s[..1 + Span(s[1..])] == [s[0]] + s[1..][..Span(s[1..])];
      1 + Span(s[1..])
  }

  lemma {:induction false} ValueOfDecimal(n: nat)
    ensures Value(Decimal(n)) == n
    ensures |Decimal(n)| > 1 ==> Decimal(n)[0] != '0'
  {
    if n >= 10 {
      ValueOfDecimal(n / 10);
      DecimalHasNoLeadingZero(n / 10);
      assert Decimal(n)[..|Decimal(n)| - 1] == Decimal(n / 10);
    } else {
      assert Decimal(n)[..0] == "";
    }
  }

  lemma {:induction false} DecimalHasNoLeadingZero(n: nat)
    requires n > 0
    ensures Decimal(n)[0] != '0'
  {
    if n >= 10 {
      DecimalHasNoLeadingZero(n / 10);
    } else {
      assert DigitValue(Decimal(n)[0]) == n;
    }
  }

  /** Digits without a leading zero are the decimal text of their value. */
  lemma {:induction false} DecimalOfValue(s: string)
    requires |s| >= 1 && AllDigits(s) && (|s| > 1 ==> s[0] != '0')
    ensures Decimal(Value(s)) == s
    ensures |s| > 1 || s[0] != '0' ==> Value(s) > 0
  {
    var init, last := s[..|s| - 1], s[|s| - 1];
    assert s == init + [last];
    assert DigitChar(DigitValue(last)) == last;
    if init == "" {
      assert Value(s) == DigitValue(last);
    } else {
      DecimalOfValue(init);
      assert Value(s) / 10 == Value(init) && Value(s) % 10 == DigitValue(last);
    }
  }

  lemma {:induction false} SpanOfDigits(digits: string, rest: string)
    requires AllDigits(digits) && (rest == "" || !IsDigit(rest[0]))
    ensures Span(digits + rest) == |digits|
  {
    if digits == "" {
      assert digits + rest == rest;
    } else {
      assert (digits + rest)[1..] == digits[1..] + rest;
      SpanOfDigits(digits[1..], rest);
    }
  }

  lemma ShortDecimal(n: nat)
    requires n <= 255
    ensures |Decimal(n)| <= 3
  {
    if n >= 10 {
      assert |Decimal(n)| == |Decimal(n / 10)| + 1;
      assert n >= 100 ==> |Decimal(n / 10)| == |Decimal(n / 10 / 10)| + 1 && n / 10 / 10 < 10;
    }
  }

  /** `u8::from_str`: an optional plus sign, then digits; the value must fit. */
  function ParseU8(s: string): Option<nat> {
    var digits := if |s| > 1 && s[0] == '+' then s[1..] else s;
    if digits == "" || Span(digits) != |digits| || Value(digits[..Span(digits)]) > 255 then None
    else Some(Value(digits[..Span(digits)]))
  }

  lemma ParseU8OfDecimal(n: nat)
    requires n <= 255
    ensures ParseU8(Decimal(n)) == Some(n)
  {
    var s := Decimal(n);
    assert IsDigit(s[0]);
    assert s + "" == s;
    SpanOfDigits(s, "");
    ValueOfDecimal(n);
    assert s[..|s|] == s;
  }

  function Zeros(k: nat): (z: string)
    ensures |z| == k && AllDigits(z)
  {
    seq(k, _ => '0')
  }

  lemma {:induction false} LeadingZeroCountsNothing(t: string)
    requires AllDigits(t)
    ensures Value(['0'] + t) == Value(t)
  {
    var s := ['0'] + t;
    if t == "" {
      assert s[..0] == "" && DigitValue('0') == 0;
    } else {
      LeadingZeroCountsNothing(t[..|t| - 1]);
      assert s[..|s| - 1] == ['0'] + t[..|t| - 1];
    }
  }

  lemma {:induction false} LeadingZerosCountNothing(k: nat, t: string)
    requires AllDigits(t)
    ensures AllDigits(Zeros(k) + t) && Value(Zeros(k) + t) == Value(t)
  {
    if k == 0 {
      assert Zeros(k) + t == t;
    } else {
      LeadingZerosCountNothing(k - 1, t);
      LeadingZeroCountsNothing(Zeros(k - 1) + t);
      assert Zeros(k) + t == ['0'] + (Zeros(k - 1) + t);
    }
  }

  /** Any digits are the decimal text of their value behind zeros. */
  lemma {:induction false} DigitsAreZerosAndDecimal(d: string) returns (k: nat)
    requires d != "" && AllDigits(d)
    ensures d == Zeros(k) + Decimal(Value(d))
  {
    if |d| == 1 || d[0] != '0' {
      k := 0;
      DecimalOfValue(d);
      assert Zeros(0) + d == d;
    } else {
      var rest := DigitsAreZerosAndDecimal(d[1..]);
      k := rest + 1;
      LeadingZeroCountsNothing(d[1..]);
      assert d == ['0'] + d[1..];
      assert Zeros(k) + Decimal(Value(d)) == ['0'] + (Zeros(rest) + Decimal(Value(d)));
    }
  }

  /** A text of `n` up to 255: an optional plus sign, any zeros, and its decimal digits. */
  ghost predicate IsU8Text(s: string, n: nat) {
    n <= 255 && exists k :: s == Zeros(k) + Decimal(n) || s == "+" + (Zeros(k) + Decimal(n))
  }

  lemma DigitsParse(d: string)
    requires d != "" && AllDigits(d) && (d[0] == '+' ==> |d| == 1)
    ensures ParseU8(d) == if Value(d) > 255 then None else Some(Value(d))
  {
    assert d + "" == d && IsDigit(d[0]);
    SpanOfDigits(d, "");
    assert d[..|d|] == d;
  }

  lemma SignedDigitsParse(d: string)
    requires d != "" && AllDigits(d)
    ensures ParseU8("+" + d) == if Value(d) > 255 then None else Some(Value(d))
  {
    assert ("+" + d)[1..] == d;
    assert d + "" == d;
    SpanOfDigits(d, "");
    assert d[..|d|] == d;
  }

  /** Exactly which texts are read as which number below 256. */
  lemma ParseU8Exactly(s: string, n: nat)
    ensures ParseU8(s) == Some(n) <==> IsU8Text(s, n)
  {
    if ParseU8(s) == Some(n) {
      var digits := if |s| > 1 && s[0] == '+' then s[1..] else s;
      assert digits[..|digits|] == digits;
      var k := DigitsAreZerosAndDecimal(digits);
      assert s == digits || s == "+" + digits;
    }
    if IsU8Text(s, n) {
      var k :| s == Zeros(k) + Decimal(n) || s == "+" + (Zeros(k) + Decimal(n));
      var d := Zeros(k) + Decimal(n);
      LeadingZerosCountNothing(k, Decimal(n));
      ValueOfDecimal(n);
      assert IsDigit(d[0]);
      DigitsParse(d);
      SignedDigitsParse(d);
    }
  }

  // ---------------------------------------------------------------- addresses

  predicate AreOctets(o: seq<nat>) {
    |o| == 4 && forall i :: 0 <= i < 4 ==> o[i] <= 255
  }

  function FromOctets(o: seq<nat>): Ipv4Addr
    requires AreOctets(o)
  {
    ((o[0] * 256 + o[1]) * 256 + o[2]) * 256 + o[3]
  }

  function ToOctets(a: Ipv4Addr): (o: seq<nat>)
    ensures AreOctets(o)
  {
    [a / 256 / 256 / 256, a / 256 / 256 % 256, a / 256 % 256, a % 256]
  }

  lemma OctetsAreUnique(o: seq<nat>)
    requires AreOctets(o)
    ensures ToOctets(FromOctets(o)) == o
  {
    var ab := o[0] * 256 + o[1];
    var abc := ab * 256 + o[2];
    assert (abc * 256 + o[3]) / 256 == abc && (abc * 256 + o[3]) % 256 == o[3];
    assert abc / 256 == ab && abc % 256 == o[2];
    assert ab / 256 == o[0] && ab % 256 == o[1];
  }

  lemma AddressIsItsOctets(a: Ipv4Addr)
    ensures FromOctets(ToOctets(a)) == a
  {
  }

  /** Each octet behind a dot. */
  function ShowDotted(o: seq<nat>): string {
    if o == [] then "" else "." + (Decimal(o[0]) + ShowDotted(o[1..]))
  }

  function ShowOctets(o: seq<nat>): string
    requires o != []
  {
    Decimal(o[0]) + ShowDotted(o[1..])
  }

  function ShowAddr(a: Ipv4Addr): string {
    ShowOctets(ToOctets(a))
  }

  datatype Read = Read(value: nat, rest: string)

  /** One to three digits, no leading zero, at most 255. */
  function ReadOctet(s: string): Option<Read> {
    var k := Span(s);
    if k == 0 || k > 3 || (k > 1 && s[0] == '0') || Value(s[..k]) > 255 then None
    else Some(Read(Value(s[..k]), s[k..]))
  }

  /** Exactly `n` octets, each behind a dot, and nothing after them. */
  function ReadDotted(s: string, n: nat): (r: Option<seq<nat>>)
    ensures r.Some? ==> |r.value| == n
  {
    if n == 0 then if s == "" then Some([]) else None
    else if s == "" || s[0] != '.' then None
    else
      match ReadOctet(s[1..])
      case None => None
      case Some(first) =>
        match ReadDotted(first.rest, n - 1)
        case None => None
        case Some(rest) => Some([first.value] + rest)
  }

  /** Four octets with dots between them. */
  function ReadOctets(s: string): (r: Option<seq<nat>>)
    ensures r.Some? ==> |r.value| == 4
  {
    ReadDotted("." + s, 4)
  }

  /** `Ipv4Addr::from_str`: at most 15 characters, four octets, nothing after them. */
  function ParseAddr(s: string): Option<Ipv4Addr> {
    if |s| > 15 then None
    else
      match ReadOctets(s)
      case None => None
      case Some(o) =>
        ReadOctetsIsCanonical(s);
        Some(FromOctets(o))
  }

  lemma ReadOctetIsCanonical(s: string)
    ensures ReadOctet(s).Some? ==>
      ReadOctet(s).value.value <= 255 && s == Decimal(ReadOctet(s).value.value) + ReadOctet(s).value.rest
  {
    var k := Span(s);
    if ReadOctet(s).Some? {
      DecimalOfValue(s[..k]);
      assert s == s[..k] + s[k..];
    }
  }

  lemma ShowOneMore(v: nat, rest: seq<nat>)
    ensures ShowDotted([v] + rest) == "." + (Decimal(v) + ShowDotted(rest))
  {
    assert ([v] + rest)[1..] == rest;
  }

  lemma DottedParts(s: string, n: nat) returns (first: Read, rest: seq<nat>)
    requires n > 0 && ReadDotted(s, n).Some?
    ensures s != "" && s[0] == '.' && ReadOctet(s[1..]) == Some(first)
    ensures ReadDotted(first.rest, n - 1) == Some(rest) && ReadDotted(s, n).value == [first.value] + rest
  {
    first := ReadOctet(s[1..]).value;
    rest := ReadDotted(first.rest, n - 1).value;
  }

  lemma BehindADot(s: string, t: string)
    requires s != "" && s[0] == '.' && s[1..] == t
    ensures s == "." + t
  {
  }

  lemma {:induction false} ReadDottedIsShown(s: string, n: nat)
    requires ReadDotted(s, n).Some?
    ensures s == ShowDotted(ReadDotted(s, n).value)
  {
    if n > 0 {
      var first, rest := DottedParts(s, n);
      ReadOctetIsCanonical(s[1..]);
      ReadDottedIsShown(first.rest, n - 1);
      ShowOneMore(first.value, rest);
      BehindADot(s, Decimal(first.value) + ShowDotted(rest));
    }
  }

  predicate Fit(o: seq<nat>) {
    forall i :: 0 <= i < |o| ==> o[i] <= 255
  }

  lemma OneMoreFits(v: nat, rest: seq<nat>)
    requires v <= 255 && Fit(rest)
    ensures Fit([v] + rest)
  {
  }

  lemma OctetFits(s: string)
    requires ReadOctet(s).Some?
    ensures ReadOctet(s).value.value <= 255
  {
  }

  lemma {:induction false} ReadDottedFits(s: string, n: nat)
    requires ReadDotted(s, n).Some?
    ensures Fit(ReadDotted(s, n).value)
  {
    if n > 0 {
      var first, rest := DottedParts(s, n);
      OctetFits(s[1..]);
      ReadDottedFits(first.rest, n - 1);
      OneMoreFits(first.value, rest);
    }
  }

  lemma ReadOctetsIsCanonical(s: string)
    ensures
      var r := ReadOctets(s);
      r.Some? ==> AreOctets(r.value) && s == ShowOctets(r.value)
  {
    if ReadOctets(s).Some? {
      ReadDottedIsShown("." + s, 4);
      ReadDottedFits("." + s, 4);
      DroppedDot(s, ShowOctets(ReadOctets(s).value));
    }
  }

  lemma DroppedDot(s: string, t: string)
    requires "." + s == "." + t
    ensures s == t
  {
    assert ("." + s)[1..] == s && ("." + t)[1..] == t;
  }

  lemma ReadOctetOfDecimal(v: nat, rest: string)
    requires v <= 255 && (rest == "" || !IsDigit(rest[0]))
    ensures ReadOctet(Decimal(v) + rest) == Some(Read(v, rest))
  {
    var s := Decimal(v) + rest;
    SpanOfDigits(Decimal(v), rest);
    assert s[..|Decimal(v)|] == Decimal(v) && s[|Decimal(v)|..] == rest;
    ValueOfDecimal(v);
    ShortDecimal(v);
  }

  lemma {:induction false} ShownIsShort(o: seq<nat>)
    requires forall i :: 0 <= i < |o| ==> o[i] <= 255
    ensures |ShowDotted(o)| <= 4 * |o|
  {
    if o != [] {
      ShownIsShort(o[1..]);
      ShortDecimal(o[0]);
    }
  }

  lemma {:induction false} ReadDottedOfShown(o: seq<nat>)
    requires forall i :: 0 <= i < |o| ==> o[i] <= 255
    ensures ReadDotted(ShowDotted(o), |o|) == Some(o)
  {
    if o != [] {
      var rest, tail := o[1..], ShowDotted(o[1..]);
      ReadDottedOfShown(rest);
      assert tail == "" || tail[0] == '.';
      ReadOctetOfDecimal(o[0], tail);
      ShowOneMore(o[0], rest);
      var s := "." + (Decimal(o[0]) + tail);
      assert s[1..] == Decimal(o[0]) + tail;
      assert ReadDotted(s, |o|) == Some([o[0]] + rest);
      assert [o[0]] + rest == o;
    }
  }

  lemma ShownAddressParses(a: Ipv4Addr)
    ensures ParseAddr(ShowAddr(a)) == Some(a)
  {
    var o := ToOctets(a);
    ReadDottedOfShown(o);
    ShownIsShort(o);
    assert "." + ShowOctets(o) == ShowDotted(o);
    AddressIsItsOctets(a);
  }

  /** An address has exactly one accepted text, the one it is printed as. */
  lemma AddressTextIsUnique(s: string, a: Ipv4Addr)
    ensures ParseAddr(s) == Some(a) <==> s == ShowAddr(a)
  {
    ShownAddressParses(a);
    if ParseAddr(s) == Some(a) {
      ReadOctetsIsCanonical(s);
      OctetsAreUnique(ReadOctets(s).value);
    }
  }

  // ---------------------------------------------------------------- networks as text

  function Show(c: Ipv4Cidr): string {
    ShowAddr(c.network) + "/" + Decimal(c.prefix)
  }

  datatype CidrError = BadPrefix | NoIpv6 | NotAnAddress | HostBits(meant: Ipv4Cidr)

  function ParseNetwork(text: string, prefix: nat): Result<Ipv4Cidr, CidrError> {
    if ':' in text then Failure(NoIpv6)
    else
      match ParseAddr(text)
      case None => Failure(NotAnAddress)
      case Some(a) =>
        var c := New(a, prefix);
        if c.network != a then Failure(HostBits(c)) else Success(c)
  }

  /** The prefix length behind the slash, 32 without one; none when it is no number up to 32. */
  function PrefixOf(s: string): (p: Option<nat>)
    ensures p.Some? ==> p.value <= 32
  {
    var slash := IndexOf(s, '/');
    if slash == |s| then Some(32)
    else
      match ParseU8(s[slash + 1..])
      case None => None
      case Some(p) => if p > 32 then None else Some(p)
  }

  function AddressOf(s: string): string {
    s[..IndexOf(s, '/')]
  }

  function Parse(s: string): Result<Ipv4Cidr, CidrError> {
    match PrefixOf(s)
    case None => Failure(BadPrefix)
    case Some(p) => ParseNetwork(AddressOf(s), p)
  }

  /** `s` is a text of the network `c`: the printed address, then either nothing (a
      single address) or a slash and a text of the prefix length. */
  ghost predicate Spells(s: string, c: Ipv4Cidr) {
    || (s == ShowAddr(c.network) && c.prefix == 32)
    || (exists t :: SpellsWith(s, c, t))
  }

  predicate SpellsWith(s: string, c: Ipv4Cidr, t: string) {
    s == ShowAddr(c.network) + "/" + t && ParseU8(t) == Some(c.prefix)
  }

  predicate Plain(s: string) {
    forall i :: 0 <= i < |s| ==> IsDigit(s[i]) || s[i] == '.'
  }

  lemma {:induction false} DottedIsPlain(o: seq<nat>)
    ensures Plain(ShowDotted(o))
  {
    if o != [] {
      DottedIsPlain(o[1..]);
    }
  }

  lemma AddressTextIsPlain(a: Ipv4Addr)
    ensures Plain(ShowAddr(a)) && '/' !in ShowAddr(a) && ':' !in ShowAddr(a)
  {
    DottedIsPlain(ToOctets(a)[1..]);
  }

  lemma ParseNetworkExactly(text: string, prefix: nat, c: Ipv4Cidr)
    requires prefix <= 32
    ensures ParseNetwork(text, prefix) == Success(c) <==>
      c.Valid() && text == ShowAddr(c.network) && c.prefix == prefix
  {
    AddressTextIsUnique(text, c.network);
    AddressTextIsPlain(c.network);
    Masked(c.network, prefix);
  }

  lemma PartsOfSlashed(address: string, t: string)
    requires '/' !in address
    ensures
      var s := address + "/" + t;
      && AddressOf(s) == address
      && PrefixOf(s) == if ParseU8(t).None? || ParseU8(t).value > 32 then None else ParseU8(t)
  {
    var s := address + "/" + t;
    IndexOfFirst(address, '/', t);
    assert s[|address| + 1..] == t && s[..|address|] == address;
  }

  lemma PartsOfBare(address: string)
    requires '/' !in address
    ensures AddressOf(address) == address && PrefixOf(address) == Some(32)
  {
    IndexOfNone(address, '/');
    assert address[..|address|] == address;
  }

  lemma SlashedTextParses(c: Ipv4Cidr, t: string)
    requires ParseU8(t) == Some(c.prefix)
    ensures Parse(ShowAddr(c.network) + "/" + t) == Success(c) <==> c.Valid()
  {
    AddressTextIsPlain(c.network);
    PartsOfSlashed(ShowAddr(c.network), t);
    if c.prefix <= 32 {
      ParseNetworkExactly(ShowAddr(c.network), c.prefix, c);
    }
  }

  lemma BareTextParses(c: Ipv4Cidr)
    requires c.prefix == 32
    ensures Parse(ShowAddr(c.network)) == Success(c) <==> c.Valid()
  {
    AddressTextIsPlain(c.network);
    PartsOfBare(ShowAddr(c.network));
    ParseNetworkExactly(ShowAddr(c.network), 32, c);
  }

  lemma SplitAt(s: string, k: nat)
    requires k < |s|
    ensures s == s[..k] + [s[k]] + s[k + 1..]
  {
  }

  lemma ParsedTextSpells(s: string, c: Ipv4Cidr)
    requires Parse(s) == Success(c)
    ensures c.Valid() && Spells(s, c)
  {
    var slash := IndexOf(s, '/');
    ParseNetworkExactly(AddressOf(s), PrefixOf(s).value, c);
    if slash == |s| {
      assert AddressOf(s) == s;
    } else {
      SplitAt(s, slash);
      assert SpellsWith(s, c, s[slash + 1..]);
    }
  }

  /** The reading of a printed address with a prefix: the network, unless host bits are set. */
  predicate ReadsAs(address: string, prefix: nat, a: Ipv4Addr, r: Result<Ipv4Cidr, CidrError>)
    requires prefix <= 32
  {
    address == ShowAddr(a)
    && r == if a % Block(prefix) == 0 then Success(Ipv4Cidr(a, prefix)) else Failure(HostBits(New(a, prefix)))
  }

  /** Why the part in front of the prefix is refused: a colon, then no address, then host bits
      that are set, with the network that was meant. */
  lemma AddressRefuses(address: string, prefix: nat)
    requires prefix <= 32
    ensures
      var r := ParseNetwork(address, prefix);
      if ':' in address then r == Failure(NoIpv6)
      else r == Failure(NotAnAddress) || exists a: Ipv4Addr :: ReadsAs(address, prefix, a, r)
    ensures
      ':' !in address && ParseNetwork(address, prefix) == Failure(NotAnAddress) <==>
      ':' !in address && forall a: Ipv4Addr :: address != ShowAddr(a)
  {
    forall a: Ipv4Addr ensures ParseAddr(address) == Some(a) <==> address == ShowAddr(a) {
      AddressTextIsUnique(address, a);
    }
    if ':' !in address && ParseAddr(address).Some? {
      var a := ParseAddr(address).value;
      Masked(a, prefix);
      assert ReadsAs(address, prefix, a, ParseNetwork(address, prefix));
    }
  }

  /** Every text is an address with or without a slash and a prefix behind it, and a prefix
      that is no number up to 32 is what is reported first. */
  lemma PrefixRefuses(address: string, t: string)
    requires '/' !in address
    ensures Parse(address + "/" + t) == Failure(BadPrefix) <==> forall n :: n <= 32 ==> !IsU8Text(t, n)
    ensures Parse(address) != Failure(BadPrefix)
  {
    PartsOfSlashed(address, t);
    PartsOfBare(address);
    forall n: nat ensures ParseU8(t) == Some(n) <==> IsU8Text(t, n) {
      ParseU8Exactly(t, n);
    }
    AddressRefuses(address, 32);
    if PrefixOf(address + "/" + t).Some? {
      AddressRefuses(address, PrefixOf(address + "/" + t).value);
    }
  }

  lemma RefusedBehindThePrefix(address: string, t: string, n: nat)
    requires '/' !in address && n <= 32 && IsU8Text(t, n)
    ensures Parse(address + "/" + t) == ParseNetwork(address, n)
  {
    PartsOfSlashed(address, t);
    ParseU8Exactly(t, n);
  }

  lemma ParsedIsValid(s: string)
    requires Parse(s).Success?
    ensures Parse(s).value.Valid()
  {
    ParsedTextSpells(s, Parse(s).value);
  }

  /** Parsing accepts exactly the texts of valid networks. */
  lemma ParseExactly(s: string, c: Ipv4Cidr)
    ensures Parse(s) == Success(c) <==> c.Valid() && Spells(s, c)
  {
    if Parse(s) == Success(c) {
      ParsedTextSpells(s, c);
    } else if Spells(s, c) {
      if s == ShowAddr(c.network) && c.prefix == 32 {
        BareTextParses(c);
      } else {
        var t :| SpellsWith(s, c, t);
        SlashedTextParses(c, t);
      }
    }
  }

  /** The printed form of a network parses back to it. */
  lemma ParseOfShow(c: Ipv4Cidr)
    requires c.Valid()
    ensures Parse(Show(c)) == Success(c)
  {
    ParseU8OfDecimal(c.prefix);
    SlashedTextParses(c, Decimal(c.prefix));
  }

  // ---------------------------------------------------------------- blocked ranges

  /** A special-purpose range, by the octets and the prefix length of its text. */
  datatype BlockedRange = BlockedRange(a: nat, b: nat, c: nat, d: nat, prefix: nat, name: string) {
    function Octets(): seq<nat> { [a, b, c, d] }
  }

  const BLOCKED_IPV4: seq<BlockedRange> := [
    BlockedRange(0, 0, 0, 0, 8, "this network"),
    BlockedRange(10, 0, 0, 0, 8, "RFC1918 private"),
    BlockedRange(100, 64, 0, 0, 10, "CGNAT shared address space"),
    BlockedRange(127, 0, 0, 0, 8, "loopback"),
    BlockedRange(169, 254, 0, 0, 16, "link-local and cloud metadata"),
    BlockedRange(172, 16, 0, 0, 12, "RFC1918 private"),
    BlockedRange(192, 0, 0, 0, 24, "IETF protocol assignments"),
    BlockedRange(192, 0, 2, 0, 24, "TEST-NET-1"),
    BlockedRange(192, 88, 99, 0, 24, "6to4 relay anycast"),
    BlockedRange(192, 168, 0, 0, 16, "RFC1918 private"),
    BlockedRange(198, 18, 0, 0, 15, "benchmarking"),
    BlockedRange(198, 51, 100, 0, 24, "TEST-NET-2"),
    BlockedRange(203, 0, 113, 0, 24, "TEST-NET-3"),
    BlockedRange(224, 0, 0, 0, 4, "multicast"),
    BlockedRange(240, 0, 0, 0, 4, "reserved and limited broadcast")
  ]

  function Text(b: BlockedRange): string
  {
    ShowOctets(b.Octets()) + "/" + Decimal(b.prefix)
  }

  function NetOf(b: BlockedRange): Ipv4Cidr
    requires AreOctets(b.Octets())
  {
    Ipv4Cidr(FromOctets(b.Octets()), b.prefix)
  }

  lemma BlockSizes()
    ensures Block(24) == 0x100 && Block(16) == 0x1_0000 && Block(15) == 0x2_0000 && Block(12) == 0x10_0000
    ensures Block(10) == 0x40_0000 && Block(8) == 0x100_0000 && Block(4) == 0x1000_0000
  {
    assert Pow2(8) == 256;
    Pow2Splits(8, 8);
    Pow2Splits(1, 16);
    Pow2Splits(4, 16);
    Pow2Splits(6, 16);
    Pow2Splits(8, 16);
    Pow2Splits(4, 24);
  }

  predicate Bounded(b: BlockedRange) {
    b.a <= 255 && b.b <= 255 && b.c <= 255 && b.d == 0 && b.prefix in {4, 8, 10, 12, 15, 16, 24}
  }

  /** No octet behind the prefix is set. */
  predicate BaseOnly(b: BlockedRange) {
    && (b.prefix <= 8 ==> b.b == 0 && b.c == 0)
    && (b.prefix <= 16 ==> b.c == 0)
    && (b.prefix == 4 ==> b.a % 16 == 0)
    && (b.prefix == 10 ==> b.b == 64)
    && (b.prefix == 12 ==> b.b == 16)
    && (b.prefix == 15 ==> b.b == 18)
  }

  /** What the entries of the table have in common. */
  predicate Shaped(b: BlockedRange) { Bounded(b) && BaseOnly(b) }

  lemma EntriesAreBounded(b: BlockedRange)
    requires b in BLOCKED_IPV4
    ensures Bounded(b)
  {
  }

  lemma EntriesAreBases(b: BlockedRange)
    requires b in BLOCKED_IPV4
    ensures BaseOnly(b)
  {
  }

  lemma EntriesAreShaped(b: BlockedRange)
    requires b in BLOCKED_IPV4
    ensures Shaped(b)
  {
    EntriesAreBounded(b);
    EntriesAreBases(b);
  }

  lemma SecondOctetFits(b: BlockedRange)
    requires Shaped(b) && 8 < b.prefix <= 16
    ensures b.b + Pow2(16 - b.prefix) <= 256
  {
    SmallPowers();
  }

  lemma ShapedIsNetwork(b: BlockedRange)
    requires Shaped(b)
    ensures AreOctets(b.Octets()) && NetOf(b).Valid()
  {
    BaseIsAligned(b.a, b.b, b.c, b.prefix);
  }

  lemma EntriesAreNetworks(b: BlockedRange)
    requires b in BLOCKED_IPV4
    ensures AreOctets(b.Octets()) && NetOf(b).Valid()
  {
    EntriesAreShaped(b);
    ShapedIsNetwork(b);
  }

  lemma BaseIsAligned(a: nat, b: nat, c: nat, prefix: nat)
    requires prefix in {4, 8, 10, 12, 15, 16, 24}
    requires prefix <= 8 ==> b == 0 && c == 0
    requires prefix <= 16 ==> c == 0
    requires prefix == 4 ==> a % 16 == 0
    requires (prefix == 10 ==> b == 64) && (prefix == 12 ==> b == 16) && (prefix == 15 ==> b == 18)
    ensures ((a * 256 + b) * 256 + c) * 256 % Block(prefix) == 0
  {
    BlockSizes();
    var blocks :=
      if prefix == 4 then a / 16 else if prefix == 8 then a else if prefix == 10 then a * 4 + 1
      else if prefix == 12 then a * 16 + 1 else if prefix == 15 then a * 128 + 9
      else if prefix == 16 then a * 256 + b else (a * 256 + b) * 256 + c;
    assert ((a * 256 + b) * 256 + c) * 256 == Block(prefix) * blocks;
    DivisionIsUnique(((a * 256 + b) * 256 + c) * 256, Block(prefix), blocks, 0);
  }

  /** The text of every entry parses, to the network it names: no host bit is set. */
  lemma EntriesParse(b: BlockedRange)
    requires b in BLOCKED_IPV4
    ensures AreOctets(b.Octets()) && NetOf(b).Valid() && Parse(Text(b)) == Success(NetOf(b))
  {
    EntriesAreNetworks(b);
    OctetsAreUnique(b.Octets());
    assert Text(b) == Show(NetOf(b));
    ParseOfShow(NetOf(b));
  }

  /** `BlockedRange::cidr`, whose `expect` never fails. */
  function Cidr(b: BlockedRange): (c: Ipv4Cidr)
    requires b in BLOCKED_IPV4
    ensures c.Valid() && Parse(Text(b)) == Success(c)
  {
    EntriesParse(b);
    Parse(Text(b)).value
  }

  predicate IsPublic(a: Ipv4Addr) {
    !exists b <- BLOCKED_IPV4 :: Cidr(b).Contains(a)
  }

  /** The entry that starts at these octets holds the addresses from them to `last`. */
  lemma EntryIsAnInterval(b: BlockedRange, a: Ipv4Addr)
    requires b in BLOCKED_IPV4
    ensures AreOctets(b.Octets()) && b.prefix <= 32
    ensures Cidr(b).Contains(a) <==> FromOctets(b.Octets()) <= a < FromOctets(b.Octets()) + Block(b.prefix)
  {
    EntriesParse(b);
    ContainsIsAnInterval(Cidr(b), a);
  }

  /** Which addresses are public, by their octets. */
  predicate OutsideSpecialRanges(o: seq<nat>)
    requires AreOctets(o)
  {
    && o[0] != 0 && o[0] != 10 && o[0] != 127 && o[0] < 224
    && !(o[0] == 100 && 64 <= o[1] < 128)
    && !(o[0] == 169 && o[1] == 254)
    && !(o[0] == 172 && 16 <= o[1] < 32)
    && !(o[0] == 192 && o[1] == 168)
    && !(o[0] == 192 && o[1] == 0 && (o[2] == 0 || o[2] == 2))
    && !(o[0] == 192 && o[1] == 88 && o[2] == 99)
    && !(o[0] == 198 && (o[1] == 18 || o[1] == 19))
    && !(o[0] == 198 && o[1] == 51 && o[2] == 100)
    && !(o[0] == 203 && o[1] == 0 && o[2] == 113)
  }

  /** The octets are inside the range: equal before the octet the prefix ends in, and
      there inside the block. */
  predicate InRange(b: BlockedRange, o: seq<nat>)
    requires |o| == 4
  {
    if b.prefix <= 8 then b.a <= o[0] < b.a + Pow2(8 - b.prefix)
    else if b.prefix <= 16 then o[0] == b.a && b.b <= o[1] < b.b + Pow2(16 - b.prefix)
    else o[0] == b.a && o[1] == b.b && o[2] == b.c
  }

  lemma InFirstOctet(o: seq<nat>, a: nat, k: nat)
    requires AreOctets(o)
    ensures a * 0x100_0000 <= FromOctets(o) < (a + k) * 0x100_0000 <==> a <= o[0] < a + k
  {
  }

  lemma InSecondOctet(o: seq<nat>, a: nat, b: nat, k: nat)
    requires AreOctets(o) && b + k <= 256
    ensures (a * 256 + b) * 0x1_0000 <= FromOctets(o) < (a * 256 + b + k) * 0x1_0000 <==> o[0] == a && b <= o[1] < b + k
  {
  }

  lemma InThirdOctet(o: seq<nat>, a: nat, b: nat, c: nat)
    requires AreOctets(o) && b <= 255 && c <= 255
    ensures ((a * 256 + b) * 256 + c) * 256 <= FromOctets(o) < ((a * 256 + b) * 256 + c + 1) * 256 <==>
      o[0] == a && o[1] == b && o[2] == c
  {
  }

  lemma BlockByOctets(prefix: nat)
    requires prefix <= 24
    ensures prefix <= 8 ==> Block(prefix) == Pow2(8 - prefix) * 0x100_0000
    ensures prefix <= 16 ==> Block(prefix) == Pow2(16 - prefix) * 0x1_0000
    ensures Block(prefix) == Pow2(24 - prefix) * 0x100
  {
    BlockSizes();
    Pow2Splits(24 - prefix, 8);
    if prefix <= 16 {
      Pow2Splits(16 - prefix, 16);
    }
    if prefix <= 8 {
      Pow2Splits(8 - prefix, 24);
    }
  }

  lemma RangeOfOctets(b: BlockedRange, o: seq<nat>)
    requires Shaped(b) && AreOctets(b.Octets()) && AreOctets(o)
    ensures FromOctets(b.Octets()) <= FromOctets(o) < FromOctets(b.Octets()) + Block(b.prefix) <==> InRange(b, o)
  {
    BlockByOctets(b.prefix);
    assert b.a == b.Octets()[0] && b.b == b.Octets()[1] && b.c == b.Octets()[2] && b.d == b.Octets()[3];
    if b.prefix <= 8 {
      InFirstOctet(o, b.a, Pow2(8 - b.prefix));
    } else if b.prefix <= 16 {
      SecondOctetFits(b);
      InSecondOctet(o, b.a, b.b, Pow2(16 - b.prefix));
    } else {
      InThirdOctet(o, b.a, b.b, b.c);
    }
  }

  lemma EntryByOctets(b: BlockedRange, a: Ipv4Addr)
    requires b in BLOCKED_IPV4
    ensures Cidr(b).Contains(a) <==> InRange(b, ToOctets(a))
  {
    EntryIsAnInterval(b, a);
    AddressIsItsOctets(a);
    EntriesAreShaped(b);
    RangeOfOctets(b, ToOctets(a));
  }

  /** Exactly which addresses are public. */
  lemma PublicByOctets(a: Ipv4Addr)
    ensures IsPublic(a) <==> OutsideSpecialRanges(ToOctets(a))
  {
    var o := ToOctets(a);
    forall b <- BLOCKED_IPV4 ensures Cidr(b).Contains(a) <==> InRange(b, o) {
      EntryByOctets(b, a);
    }
    SpecialRanges(o);
  }

  lemma SmallPowers()
    ensures Pow2(0) == 1 && Pow2(1) == 2 && Pow2(4) == 16 && Pow2(6) == 64 && Pow2(8) == 256
  {
    assert Pow2(3) == 8;
    assert Pow2(5) == 32;
  }

  lemma FirstRanges(o: seq<nat>)
    requires AreOctets(o)
    ensures InRange(BLOCKED_IPV4[0], o) <==> o[0] == 0
    ensures InRange(BLOCKED_IPV4[1], o) <==> o[0] == 10
    ensures InRange(BLOCKED_IPV4[2], o) <==> o[0] == 100 && 64 <= o[1] < 128
    ensures InRange(BLOCKED_IPV4[3], o) <==> o[0] == 127
    ensures InRange(BLOCKED_IPV4[4], o) <==> o[0] == 169 && o[1] == 254
    ensures InRange(BLOCKED_IPV4[5], o) <==> o[0] == 172 && 16 <= o[1] < 32
    ensures InRange(BLOCKED_IPV4[6], o) <==> o[0] == 192 && o[1] == 0 && o[2] == 0
    ensures InRange(BLOCKED_IPV4[7], o) <==> o[0] == 192 && o[1] == 0 && o[2] == 2
  {
    SmallPowers();
  }

  lemma LastRanges(o: seq<nat>)
    requires AreOctets(o)
    ensures InRange(BLOCKED_IPV4[8], o) <==> o[0] == 192 && o[1] == 88 && o[2] == 99
    ensures InRange(BLOCKED_IPV4[9], o) <==> o[0] == 192 && o[1] == 168
    ensures InRange(BLOCKED_IPV4[10], o) <==> o[0] == 198 && 18 <= o[1] < 20
    ensures InRange(BLOCKED_IPV4[11], o) <==> o[0] == 198 && o[1] == 51 && o[2] == 100
    ensures InRange(BLOCKED_IPV4[12], o) <==> o[0] == 203 && o[1] == 0 && o[2] == 113
    ensures InRange(BLOCKED_IPV4[13], o) <==> 224 <= o[0] < 240
    ensures InRange(BLOCKED_IPV4[14], o) <==> 240 <= o[0] < 256
  {
    SmallPowers();
  }

  lemma SpecialRanges(o: seq<nat>)
    requires AreOctets(o)
    ensures OutsideSpecialRanges(o) <==> forall b <- BLOCKED_IPV4 :: !InRange(b, o)
  {
    FirstRanges(o);
    LastRanges(o);
  }

  // ---------------------------------------------------------------- rules

  const MAX_EGRESS_ALLOW_PORTS := 16

  datatype Protocol = Tcp | Udp

  datatype EgressAllowRule = EgressAllowRule(cidr: string, protocol: Protocol, ports: seq<nat>)

  datatype RuleError = Unparsable(error: CidrError) | OverlapsBlocked(range: BlockedRange) | PortCount | PortZero

  /** The network shares an address with the entry at `k`. */
  predicate Hits(k: nat, net: Ipv4Cidr)
    requires k < |BLOCKED_IPV4| && net.prefix <= 32
  {
    Cidr(BLOCKED_IPV4[k]).Overlaps(net)
  }

  predicate NoneHits(net: Ipv4Cidr)
    requires net.prefix <= 32
  {
    forall k: nat :: k < |BLOCKED_IPV4| ==> !Hits(k, net)
  }

  predicate FirstHit(k: nat, net: Ipv4Cidr)
    requires net.prefix <= 32
  {
    k < |BLOCKED_IPV4| && Hits(k, net) && forall j: nat :: j < k ==> !Hits(j, net)
  }

  /** Which entries the network touches. */
  function Touched(net: Ipv4Cidr): (flags: seq<bool>)
    requires net.prefix <= 32
    ensures |flags| == |BLOCKED_IPV4| && forall k: nat :: k < |BLOCKED_IPV4| ==> flags[k] == Hits(k, net)
  {
    seq(|BLOCKED_IPV4|, k requires 0 <= k < |BLOCKED_IPV4| => Hits(k, net))
  }

  /** The scan from position `from` on. */
  function FirstSet(flags: seq<bool>, from: nat): (k: nat)
    requires from <= |flags|
    ensures from <= k <= |flags| && (k < |flags| ==> flags[k])
    ensures forall j: nat :: from <= j < k ==> !flags[j]
    decreases |flags| - from
  {
    if from == |flags| || flags[from] then from else FirstSet(flags, from + 1)
  }

  /** Position of the first entry the network touches. */
  function FirstTouched(net: Ipv4Cidr): (k: nat)
    requires net.prefix <= 32
    ensures k <= |BLOCKED_IPV4| && (k < |BLOCKED_IPV4| ==> FirstHit(k, net)) && (k == |BLOCKED_IPV4| <==> NoneHits(net))
  {
    FirstSet(Touched(net), 0)
  }

  /** The first blocked range the network shares an address with. */
  function FirstOverlap(net: Ipv4Cidr): (r: Option<BlockedRange>)
    requires net.prefix <= 32
    ensures r.None? <==> NoneHits(net)
  {
    var k := FirstTouched(net);
    if k == |BLOCKED_IPV4| then None else Some(BLOCKED_IPV4[k])
  }

  /** The reported range is the first of the table that the network touches. */
  lemma ReportedIsFirst(net: Ipv4Cidr)
    requires net.prefix <= 32 && FirstOverlap(net).Some?
    ensures exists k: nat :: FirstHit(k, net) && FirstOverlap(net).value == BLOCKED_IPV4[k]
  {
    assert FirstHit(FirstTouched(net), net);
  }

  function ValidateNetwork(net: Ipv4Cidr, ports: seq<nat>): Result<(), RuleError>
    requires net.prefix <= 32
  {
    var blocked := FirstOverlap(net);
    if blocked.Some? then Failure(OverlapsBlocked(blocked.value))
    else if ports == [] || |ports| > MAX_EGRESS_ALLOW_PORTS then Failure(PortCount)
    else if 0 in ports then Failure(PortZero)
    else Success(())
  }

  function Validate(rule: EgressAllowRule): Result<(), RuleError> {
    match Parse(rule.cidr)
    case Failure(e) => Failure(Unparsable(e))
    case Success(net) =>
      ParsedIsValid(rule.cidr);
      ValidateNetwork(net, rule.ports)
  }

  lemma ClearIsPublic(net: Ipv4Cidr, a: Ipv4Addr)
    requires net.Valid() && net.Contains(a) && NoneHits(net)
    ensures IsPublic(a)
  {
    forall b | b in BLOCKED_IPV4 ensures !Cidr(b).Contains(a) {
      var k: nat :| k < |BLOCKED_IPV4| && BLOCKED_IPV4[k] == b;
      assert !Hits(k, net);
      OverlapsIsIntersection(Cidr(b), net);
    }
  }

  lemma SomeBlocked(net: Ipv4Cidr, k: nat)
    requires net.Valid() && k < |BLOCKED_IPV4| && Hits(k, net)
    ensures exists a: Ipv4Addr :: net.Contains(a) && !IsPublic(a)
  {
    var b := BLOCKED_IPV4[k];
    OverlapsIsIntersection(Cidr(b), net);
    var a: Ipv4Addr :| Cidr(b).Contains(a) && net.Contains(a);
    assert !IsPublic(a);
  }

  ghost predicate AllPublic(net: Ipv4Cidr)
    requires net.prefix <= 32
  {
    forall a: Ipv4Addr :: net.Contains(a) ==> IsPublic(a)
  }

  /** A network shares no address with a blocked range exactly when all its addresses are public. */
  lemma ClearOfBlockedIsPublic(net: Ipv4Cidr)
    requires net.Valid()
    ensures FirstOverlap(net).None? <==> AllPublic(net)
  {
    if FirstOverlap(net).None? {
      forall a: Ipv4Addr | net.Contains(a) ensures IsPublic(a) {
        ClearIsPublic(net, a);
      }
    } else {
      var k: nat :| k < |BLOCKED_IPV4| && Hits(k, net);
      SomeBlocked(net, k);
    }
  }

  lemma ValidateNetworkExactly(net: Ipv4Cidr, ports: seq<nat>)
    requires net.Valid()
    ensures ValidateNetwork(net, ports).Success? <==> AllPublic(net) && 1 <= |ports| <= 16 && 0 !in ports
  {
    ClearOfBlockedIsPublic(net);
  }

  /** A rule is accepted exactly when its text is a network of public addresses only and
      it lists one to sixteen ports, none of them zero. */
  lemma ValidateExactly(rule: EgressAllowRule)
    ensures Validate(rule).Success? <==>
      && Parse(rule.cidr).Success?
      && Parse(rule.cidr).value.Valid()
      && AllPublic(Parse(rule.cidr).value)
      && 1 <= |rule.ports| <= 16
      && 0 !in rule.ports
  {
    if Parse(rule.cidr).Success? {
      ParsedIsValid(rule.cidr);
      ValidateNetworkExactly(Parse(rule.cidr).value, rule.ports);
    }
  }

  ghost predicate RefusedForOverlap(net: Ipv4Cidr, r: Result<(), RuleError>)
    requires net.prefix <= 32
  {
    exists k: nat :: FirstHit(k, net) && r == Failure(OverlapsBlocked(BLOCKED_IPV4[k]))
  }

  /** Why a rule is refused: the first blocked range its network touches, then the number of
      its ports, then a port zero. */
  lemma NetworkRefuses(net: Ipv4Cidr, ports: seq<nat>)
    requires net.Valid()
    ensures
      var r := ValidateNetwork(net, ports);
      if !AllPublic(net) then RefusedForOverlap(net, r)
      else r == if |ports| == 0 || |ports| > 16 then Failure(PortCount) else if 0 in ports then Failure(PortZero) else Success(())
  {
    ClearOfBlockedIsPublic(net);
    if FirstOverlap(net).Some? {
      ReportedIsFirst(net);
    }
  }

  /** A text that is no network refuses the rule with its own error. */
  lemma TextRefuses(rule: EgressAllowRule)
    ensures Parse(rule.cidr).Failure? ==> Validate(rule) == Failure(Unparsable(Parse(rule.cidr).error))
    ensures Parse(rule.cidr).Success? ==>
      Parse(rule.cidr).value.prefix <= 32 && Validate(rule) == ValidateNetwork(Parse(rule.cidr).value, rule.ports)
  {
    if Parse(rule.cidr).Success? {
      ParsedIsValid(rule.cidr);
    }
  }
}
