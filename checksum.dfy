/** The XBee API-frame checksum, as data_parser.py computes it on hex text:
    `hexAdder` sums byte tokens, `checksumGenerator` complements a low byte
    against 0xFF and `checksumChecker` tests that payload plus checksum ends
    in the hex digits "FF". */
module Checksum {
  import opened Text
  import opened Numerals

  /** Every token is text `int(token, 16)` reads without raising, stated from
      the last token back. */
  predicate AllHexTokens(hexs: seq<string>) {
    |hexs| == 0 || (AllHexTokens(hexs[..|hexs| - 1]) && IsNumeral(hexs[|hexs| - 1], 16))
  }

  lemma {:induction false} AllHexTokensAt(hexs: seq<string>)
    ensures AllHexTokens(hexs) <==> forall i :: 0 <= i < |hexs| ==> IsNumeral(hexs[i], 16)
  {
    if |hexs| > 0 {
      AllHexTokensAt(hexs[..|hexs| - 1]);
    }
  }

  lemma AllHexTokensPrefix(hexs: seq<string>, k: nat)
    requires AllHexTokens(hexs) && k <= |hexs|
    ensures AllHexTokens(hexs[..k])
  {
    AllHexTokensAt(hexs);
    AllHexTokensAt(hexs[..k]);
  }

  /** A list is all hex tokens exactly when both of its parts are. */
  lemma AllHexTokensAppend(a: seq<string>, b: seq<string>)
    ensures AllHexTokens(a + b) <==> AllHexTokens(a) && AllHexTokens(b)
  {
    AllHexTokensAt(a + b);
    AllHexTokensAt(a);
    AllHexTokensAt(b);
    if AllHexTokens(a + b) {
      forall i | 0 <= i < |a|
        ensures IsNumeral(a[i], 16)
      {
        assert (a + b)[i] == a[i];
      }
      forall i | 0 <= i < |b|
        ensures IsNumeral(b[i], 16)
      {
        assert (a + b)[|a| + i] == b[i];
      }
    }
  }

  /** The plain integer sum of the tokens' values, with no truncation. */
  function SumHex(hexs: seq<string>): nat
    requires AllHexTokens(hexs)
  {
    if |hexs| == 0 then 0
    else SumHex(hexs[..|hexs| - 1]) + Value(hexs[|hexs| - 1], 16)
  }

  /** `hexAdder`: accumulates the token values in a loop and writes the total
      as upper-case hex without prefix or padding. */
  method HexAdder(hexs: seq<string>) returns (r: string)
    requires AllHexTokens(hexs)
    ensures IsCanonical(r, 16) && Value(r, 16) == SumHex(hexs)
  {
    var temp := 0;
    AllHexTokensPrefix(hexs, 0);
    for i := 0 to |hexs|
      invariant AllHexTokens(hexs[..i]) && temp == SumHex(hexs[..i])
    {
      SumHexStep(hexs, i);
      temp := temp + Value(hexs[i], 16);
    }
    assert hexs[..|hexs|] == hexs;
    r := Render(temp, 16);
  }

  /** `checksumGenerator`: `hex(0xFF - int(added, 16))` without its prefix, upper-cased.
      A value above 0xFF makes the difference negative and Python writes it
      with a leading minus sign. */
  function ChecksumGenerator(added: string): (r: string)
    requires IsNumeral(added, 16)
    ensures Value(added, 16) <= 0xFF ==> IsCanonical(r, 16) && Value(r, 16) == 0xFF - Value(added, 16)
    ensures Value(added, 16) > 0xFF ==>
      |r| >= 2 && r[0] == '-' && IsCanonical(r[1..], 16) && Value(r[1..], 16) == Value(added, 16) - 0xFF
  {
    var x := Value(added, 16);
    if x <= 0xFF then Render(0xFF - x, 16) else "-" + Render(x - 0xFF, 16)
  }

  /** The integrity law of an XBee API frame: the payload bytes plus the
      checksum byte, kept to their lowest 8 bits, make 0xFF. */
  predicate IntegrityHolds(hexs: seq<string>, checksum: string)
    requires AllHexTokens(hexs) && IsNumeral(checksum, 16)
  {
    (SumHex(hexs) + Value(checksum, 16)) % 0x100 == 0xFF
  }

  /** A Python list of hex tokens, shared by reference with its caller. */
  class HexList {
    var items: seq<string>

    constructor (items0: seq<string>)
      ensures items == items0
    {
      items := items0;
    }
  }

  /** `checksumChecker`: appends the checksum to the caller's list, then tests
      the last two hex digits of the sum of the whole list. */
  method ChecksumChecker(hexs: HexList, checksum: string) returns (ok: bool)
    requires AllHexTokens(hexs.items) && IsNumeral(checksum, 16)
    modifies hexs
    ensures hexs.items == old(hexs.items) + [checksum]
    ensures ok == IntegrityHolds(old(hexs.items), checksum)
  {
    SumHexSnoc(hexs.items, checksum);
    hexs.items := hexs.items + [checksum];
    var result := HexAdder(hexs.items);
    ok := LastTwo(result) == "FF";
    SumTestIsIntegrity(old(hexs.items), checksum, result);
  }

  /** Appending one token adds its value to the sum. */
  lemma SumHexSnoc(hexs: seq<string>, t: string)
    requires AllHexTokens(hexs) && IsNumeral(t, 16)
    ensures AllHexTokens(hexs + [t])
    ensures SumHex(hexs + [t]) == SumHex(hexs) + Value(t, 16)
  {
    assert (hexs + [t])[..|hexs|] == hexs;
  }

  /** The test `checksumChecker` makes on the hex text of the total is the
      integrity law. */
  lemma SumTestIsIntegrity(hexs: seq<string>, checksum: string, result: string)
    requires AllHexTokens(hexs) && IsNumeral(checksum, 16) && AllHexTokens(hexs + [checksum])
    requires IsCanonical(result, 16) && Value(result, 16) == SumHex(hexs + [checksum])
    ensures (LastTwo(result) == "FF") == IntegrityHolds(hexs, checksum)
  {
    SumHexSnoc(hexs, checksum);
    RenderValue(result, 16);
    LastTwoIsFF(Value(result, 16));
  }

  /** Summing a concatenation sums the parts. */
  lemma {:induction false} SumHexAppend(a: seq<string>, b: seq<string>)
    requires AllHexTokens(a) && AllHexTokens(b)
    ensures AllHexTokens(a + b)
    ensures SumHex(a + b) == SumHex(a) + SumHex(b)
    decreases |b|
  {
    if |b| > 0 {
      var b' := b[..|b| - 1];
      SumHexAppend(a, b');
      assert (a + b)[..|a + b| - 1] == a + b';
    } else {
      assert a + b == a;
    }
  }

  /** Taking one token out of a list takes its value out of the sum. */
  lemma SumHexRemove(a: seq<string>, x: string, b: seq<string>)
    requires AllHexTokens((a + [x]) + b)
    ensures IsNumeral(x, 16) && AllHexTokens(a + b)
    ensures SumHex((a + [x]) + b) == SumHex(a + b) + Value(x, 16)
  {
    AllHexTokensAppend(a + [x], b);
    AllHexTokensAppend(a, [x]);
    AllHexTokensAppend(a, b);
    SumHexSnoc(a, x);
    SumHexAppend(a + [x], b);
    SumHexAppend(a, b);
  }

  /** Matching the last element of `p` with an equal element of `q` leaves
      equal multisets behind. */
  lemma MultisetDrop(p: seq<string>, q: seq<string>, j: nat)
    requires multiset(p) == multiset(q) && |p| > 0 && j < |q| && q[j] == p[|p| - 1]
    ensures multiset(p[..|p| - 1]) == multiset(q[..j] + q[j + 1..])
  {
    var x, p', q' := p[|p| - 1], p[..|p| - 1], q[..j] + q[j + 1..];
    assert p == p' + [x];
    assert q == q[..j] + [x] + q[j + 1..];
    assert multiset(p) == multiset(p') + multiset{x};
    assert multiset(q) == multiset(q') + multiset{x};
    calc {
      multiset(p');
      (multiset(p') + multiset{x}) - multiset{x};
      (multiset(q') + multiset{x}) - multiset{x};
      multiset(q');
    }
  }

  /** The sum does not depend on the order of the tokens. */
  lemma {:induction false} SumHexPermutation(p: seq<string>, q: seq<string>)
    requires AllHexTokens(p) && AllHexTokens(q)
    requires multiset(p) == multiset(q)
    ensures SumHex(p) == SumHex(q)
    decreases |p|
  {
    if |p| > 0 {
      var x := p[|p| - 1];
      assert x in multiset(q);
      var j :| 0 <= j < |q| && q[j] == x;
      var front, back := q[..j], q[j + 1..];
      assert q == (front + [x]) + back;
      MultisetDrop(p, q, j);
      SumHexRemove(front, x, back);
      SumHexPermutation(p[..|p| - 1], front + back);
    } else {
      assert |q| == |multiset(q)| == 0;
    }
  }

  /** Replacing one token changes the sum by the difference of the two values. */
  lemma SumHexUpdate(p: seq<string>, i: nat, t: string)
    requires AllHexTokens(p) && i < |p| && IsNumeral(t, 16)
    ensures IsNumeral(p[i], 16) && AllHexTokens(p[i := t])
    ensures SumHex(p[i := t]) + Value(p[i], 16) == SumHex(p) + Value(t, 16)
  {
    var front, back := p[..i], p[i + 1..];
    assert p == front + [p[i]] + back;
    assert p[i := t] == front + [t] + back;
    AllHexTokensAppend(front + [p[i]], back);
    AllHexTokensAppend(front, [p[i]]);
    AllHexTokensAppend(front + [t], back);
    SumHexSnoc(front, p[i]);
    SumHexSnoc(front, t);
    SumHexAppend(front + [p[i]], back);
    SumHexAppend(front + [t], back);
  }

  /** A byte `c` brings the low byte of `s + c` to 0xFF exactly when it is
      the complement of the low byte of `s`. */
  lemma ByteComplement(s: nat, c: nat)
    requires c <= 0xFF
    ensures (s + c) % 0x100 == 0xFF <==> c == 0xFF - s % 0x100
  {
    var q, r := s / 0x100, s % 0x100;
    assert s + c == q * 0x100 + (r + c);
    if r + c < 0x100 {
      assert (s + c) % 0x100 == r + c;
    } else {
      assert s + c == (q + 1) * 0x100 + (r + c - 0x100);
      assert (s + c) % 0x100 == r + c - 0x100;
    }
  }

  /** Swapping one byte `a` for a different byte `b` moves the low byte of a total. */
  lemma ByteChange(s: nat, s': nat, c: nat, a: nat, b: nat)
    requires a <= 0xFF && b <= 0xFF && a != b && s' + a == s + b
    requires (s + c) % 0x100 == 0xFF
    ensures (s' + c) % 0x100 != 0xFF
  {
    var q := (s + c) / 0x100;
    assert s + c == q * 0x100 + 0xFF;
    if b > a {
      assert s' + c == (q + 1) * 0x100 + (b - a - 1);
    } else {
      assert s' + c == q * 0x100 + (0xFF - (a - b));
    }
  }

  /** Round trip: a checksum generated from text holding the low byte of the
      payload sum (what `hexParser` passes as `checksum_added`) satisfies the
      integrity law for that payload. */
  lemma ChecksumRoundTrip(payload: seq<string>, added: string)
    requires AllHexTokens(payload) && IsNumeral(added, 16)
    requires Value(added, 16) == SumHex(payload) % 0x100
    ensures IsNumeral(ChecksumGenerator(added), 16)
    ensures IntegrityHolds(payload, ChecksumGenerator(added))
  {
    ByteComplement(SumHex(payload), Value(ChecksumGenerator(added), 16));
  }

  /** A one-byte checksum is accepted exactly when it is the complement of
      the payload's low byte: the checksum of a payload is unique. */
  lemma ChecksumUnique(payload: seq<string>, checksum: string)
    requires AllHexTokens(payload) && IsNumeral(checksum, 16) && Value(checksum, 16) <= 0xFF
    ensures IntegrityHolds(payload, checksum) <==> Value(checksum, 16) == 0xFF - SumHex(payload) % 0x100
  {
    ByteComplement(SumHex(payload), Value(checksum, 16));
  }

  /** While payload plus checksum stays below 256, the check passes exactly
      when the total is written "FF". */
  lemma SmallTotalCheck(payload: seq<string>, checksum: string)
    requires AllHexTokens(payload) && IsNumeral(checksum, 16)
    requires SumHex(payload) + Value(checksum, 16) < 0x100
    ensures IntegrityHolds(payload, checksum) <==> Render(SumHex(payload) + Value(checksum, 16), 16) == "FF"
  {
    var total := SumHex(payload) + Value(checksum, 16);
    assert total % 0x100 == total;
    ByteValue("FF");
    assert Value("FF", 16) == 0xFF;
    RenderValue("FF", 16);
  }

  /** Changing one byte of an intact payload to another byte value makes the
      check fail. */
  lemma FlippedByteFails(payload: seq<string>, checksum: string, i: nat, t: string)
    requires AllHexTokens(payload) && IsNumeral(checksum, 16) && i < |payload|
    requires IsNumeral(payload[i], 16) && Value(payload[i], 16) <= 0xFF
    requires IsNumeral(t, 16) && Value(t, 16) <= 0xFF
    requires Value(t, 16) != Value(payload[i], 16)
    requires IntegrityHolds(payload, checksum)
    ensures AllHexTokens(payload[i := t])
    ensures !IntegrityHolds(payload[i := t], checksum)
  {
    SumHexUpdate(payload, i, t);
    var changed := payload[i := t];
    ByteChange(SumHex(payload), SumHex(changed), Value(checksum, 16), Value(payload[i], 16), Value(t, 16));
  }

  /** `checksumGenerator` undoes itself on any value up to 0xFF and gives back
      canonical text unchanged. */
  lemma ChecksumGeneratorInvolution(h: string)
    requires IsNumeral(h, 16) && Value(h, 16) <= 0xFF
    ensures IsNumeral(ChecksumGenerator(h), 16)
    ensures ChecksumGenerator(ChecksumGenerator(h)) == Render(Value(h, 16), 16)
    ensures IsCanonical(h, 16) ==> ChecksumGenerator(ChecksumGenerator(h)) == h
  {
    if IsCanonical(h, 16) {
      RenderValue(h, 16);
    }
  }

  /** A two-digit token is its high nibble times 16 plus its low nibble. */
  lemma ByteValue(t: string)
    requires |t| == 2 && IsDigit(t[0], 16) && IsDigit(t[1], 16)
    ensures IsNumeral(t, 16)
    ensures Value(t, 16) == DigitValue(t[0]) * 16 + DigitValue(t[1])
  {
    AllDigitsAt(t, 16);
    assert t[..|t| - 1] == t[..1];
    assert t[..1][..0] == [] && t[..1][0] == t[0];
    assert Value(t[..1][..0], 16) == 0;
    assert Value(t[..1], 16) == DigitValue(t[0]);
  }

  const ExamplePayload: seq<string> :=
    ["17", "01", "00", "13", "A2", "00", "40", "AD", "14", "2E", "FF", "FE", "02", "44", "42"]

  /** The sum of a prefix grows by the value of the next token. */
  lemma SumHexStep(p: seq<string>, k: nat)
    requires AllHexTokens(p) && k < |p|
    ensures AllHexTokens(p[..k + 1]) && AllHexTokens(p[..k]) && IsNumeral(p[k], 16)
    ensures SumHex(p[..k + 1]) == SumHex(p[..k]) + Value(p[k], 16)
  {
    AllHexTokensPrefix(p, k + 1);
    assert p[..k + 1][..k] == p[..k];
  }

  /** The sum of five tokens, written out. */
  lemma SumHexFive(a: string, b: string, c: string, d: string, e: string)
    requires IsNumeral(a, 16) && IsNumeral(b, 16) && IsNumeral(c, 16) && IsNumeral(d, 16) && IsNumeral(e, 16)
    ensures AllHexTokens([a, b, c, d, e])
    ensures SumHex([a, b, c, d, e]) == Value(a, 16) + Value(b, 16) + Value(c, 16) + Value(d, 16) + Value(e, 16)
  {
    var p1 := [] + [a];
    SumHexSnoc([], a);
    var p2 := p1 + [b];
    SumHexSnoc(p1, b);
    var p3 := p2 + [c];
    SumHexSnoc(p2, c);
    var p4 := p3 + [d];
    SumHexSnoc(p3, d);
    SumHexSnoc(p4, e);
    assert [a, b, c, d, e] == p4 + [e];
  }

  lemma ExampleSumFirst()
    ensures AllHexTokens(["17", "01", "00", "13", "A2"]) && SumHex(["17", "01", "00", "13", "A2"]) == 0xCD
  {
    ByteValue("17"); ByteValue("01"); ByteValue("00"); ByteValue("13"); ByteValue("A2");
    SumHexFive("17", "01", "00", "13", "A2");
  }

  lemma ExampleSumMiddle()
    ensures AllHexTokens(["00", "40", "AD", "14", "2E"]) && SumHex(["00", "40", "AD", "14", "2E"]) == 0x12F
  {
    ByteValue("00"); ByteValue("40"); ByteValue("AD"); ByteValue("14"); ByteValue("2E");
    SumHexFive("00", "40", "AD", "14", "2E");
  }

  lemma ExampleSumLast()
    ensures AllHexTokens(["FF", "FE", "02", "44", "42"]) && SumHex(["FF", "FE", "02", "44", "42"]) == 0x285
  {
    ByteValue("FF"); ByteValue("FE"); ByteValue("02"); ByteValue("44"); ByteValue("42");
    SumHexFive("FF", "FE", "02", "44", "42");
  }

  lemma ExampleSum()
    ensures AllHexTokens(ExamplePayload) && SumHex(ExamplePayload) == 0x481
  {
    ExampleSumFirst();
    ExampleSumMiddle();
    ExampleSumLast();
    var first, middle, last := ExamplePayload[..5], ExamplePayload[5..10], ExamplePayload[10..];
    assert first == ["17", "01", "00", "13", "A2"];
    assert middle == ["00", "40", "AD", "14", "2E"];
    assert last == ["FF", "FE", "02", "44", "42"];
    assert ExamplePayload == first + middle + last;
    SumHexAppend(first, middle);
    SumHexAppend(first + middle, last);
  }

  lemma ExampleRender()
    ensures Render(0x481, 16) == "481"
  {
  }

  lemma ExampleGenerate()
    ensures ChecksumGenerator(LastTwo("481")) == "7E"
  {
    assert LastTwo("481") == "81";
    ByteValue("81");
  }

  lemma ExampleTotal()
    ensures Render(0x4FF, 16) == "4FF"
  {
  }

  /** The frame of the XBee documentation: payload 17 01 00 13 A2 00 40 AD 14 2E
      FF FE 02 44 42 sums to 481, its checksum is 7E, with the checksum the sum
      is 4FF, and the frame passes. An empty list sums to "0". */
  lemma WorkedExample()
    ensures AllHexTokens(ExamplePayload) && AllHexTokens(ExamplePayload + ["7E"])
    ensures Render(SumHex(ExamplePayload), 16) == "481"
    ensures ChecksumGenerator(LastTwo(Render(SumHex(ExamplePayload), 16))) == "7E"
    ensures Render(SumHex(ExamplePayload + ["7E"]), 16) == "4FF"
    ensures IntegrityHolds(ExamplePayload, "7E")
    ensures Render(SumHex([]), 16) == "0"
  {
    ExampleSum();
    ExampleRender();
    ExampleGenerate();
    ExampleTotal();
    SumHexAppend(ExamplePayload, ["7E"]);
    ByteValue("7E");
    assert ["7E"][..0] == [];
  }
}
