/** `generateDocNumber`: the next number the form proposes for a new
    document of a given type, derived from the documents already loaded. */
module DocNumbers {
  import opened Text
  import opened Records

  const OrderPrefix: string := "620"
  const OtherPrefix: string := "671"
  /** The suffix is zero-padded to at least this many digits. */
  const MinDigits: nat := 4

  /** `620` for orders, `671` for every other type. */
  function Prefix(docType: string): (p: string)
    ensures |p| == 3 && AllDigits(p)
    ensures p == OrderPrefix <==> docType == OrderType
    ensures p == OtherPrefix <==> docType != OrderType
  {
    if docType == OrderType then OrderPrefix else OtherPrefix
  }

  /** `docs.filter(doc => doc.type === docType)`, in list order. */
  function OfType(docs: seq<Document>, docType: string): (r: seq<Document>)
    ensures |r| <= |docs|
    ensures forall i :: 0 <= i < |r| ==> r[i].docType == docType
  {
    if docs == [] then []
    else
      var last := docs[|docs| - 1];
      OfType(docs[..|docs| - 1], docType) + (if last.docType == docType then [last] else [])
  }

  /** The filter keeps exactly the documents of the type. */
  lemma {:induction false} OfTypeMembers(docs: seq<Document>, docType: string)
    ensures forall d :: d in OfType(docs, docType) <==> d in docs && d.docType == docType
  {
    if docs != [] {
      var prefix := docs[..|docs| - 1];
      OfTypeMembers(prefix, docType);
      assert docs == prefix + [docs[|docs| - 1]];
    }
  }

  /** Index `k` holds the last document of the type in list order. */
  predicate IsLastOfType(docs: seq<Document>, k: int, docType: string) {
    0 <= k < |docs| && docs[k].docType == docType &&
    forall l :: k < l < |docs| ==> docs[l].docType != docType
  }

  /** The filtered list is empty exactly when no document has the type. */
  lemma OfTypeEmpty(docs: seq<Document>, docType: string)
    ensures OfType(docs, docType) == [] <==>
              forall k :: 0 <= k < |docs| ==> docs[k].docType != docType
  {
    OfTypeMembers(docs, docType);
    if forall k :: 0 <= k < |docs| ==> docs[k].docType != docType {
      NoneOfType(docs, docType);
    }
  }

  /** A non-empty filtered list ends with the last document of the type. */
  lemma {:induction false} OfTypeLast(docs: seq<Document>, docType: string)
    requires OfType(docs, docType) != []
    ensures var f := OfType(docs, docType);
            exists k :: IsLastOfType(docs, k, docType) && docs[k] == f[|f| - 1]
  {
    var prefix := docs[..|docs| - 1];
    var last := docs[|docs| - 1];
    if last.docType == docType {
      assert IsLastOfType(docs, |docs| - 1, docType);
    } else {
      var f := OfType(prefix, docType);
      assert OfType(docs, docType) == f + [];
      OfTypeLast(prefix, docType);
      var k :| IsLastOfType(prefix, k, docType) && prefix[k] == f[|f| - 1];
      assert IsLastOfType(docs, k, docType);
    }
  }

  /** `.pop()` of that filtered list: the last document of the type in list
      order, or nothing when no document has the type. */
  function LastOfType(docs: seq<Document>, docType: string): (r: Option<Document>)
    ensures r.None? <==> forall k :: 0 <= k < |docs| ==> docs[k].docType != docType
    ensures r.Some? ==> exists k :: IsLastOfType(docs, k, docType) && docs[k] == r.value
  {
    OfTypeEmpty(docs, docType);
    var f := OfType(docs, docType);
    if f == [] then None else OfTypeLast(docs, docType); Some(f[|f| - 1])
  }

  /** The last document's number, once the prefix is removed, parses to a
      number and not to `NaN`. */
  predicate NumberParses(docs: seq<Document>, docType: string)
  {
    match LastOfType(docs, docType)
    case None => true
    case Some(d) => ParseInt(ReplaceFirst(d.number, Prefix(docType))).Some?
  }

  /** `lastNum`: 0 when no document has the type, otherwise the parsed
      number of the last document of the type with the prefix removed. */
  function LastNumber(docs: seq<Document>, docType: string): (n: nat)
    requires NumberParses(docs, docType)
    ensures (forall k :: 0 <= k < |docs| ==> docs[k].docType != docType) ==> n == 0
    ensures forall k :: IsLastOfType(docs, k, docType) ==>
              ParseInt(ReplaceFirst(docs[k].number, Prefix(docType))) == Some(n)
  {
    match LastOfType(docs, docType)
    case None => 0
    case Some(d) => ParseInt(ReplaceFirst(d.number, Prefix(docType))).value
  }

  /** How many zeros pad the decimal form `n` of the suffix. */
  function ZerosFor(n: string): nat
  {
    if |n| < MinDigits then MinDigits - |n| else 0
  }

  /** The generated number is the type's prefix, then the decimal form of
      `lastNum + 1` zero-padded on the left to four digits; a longer decimal
      form is kept whole. */
  function GenerateDocNumber(docs: seq<Document>, docType: string): (r: string)
    requires NumberParses(docs, docType)
    ensures var n := NatToString(LastNumber(docs, docType) + 1);
            r == Prefix(docType) + (Repeat('0', ZerosFor(n)) + n)
  {
    var n := NatToString(LastNumber(docs, docType) + 1);
    Prefix(docType) + PadStart(n, MinDigits, '0')
  }

  /** The suffix after the prefix is `padStart(4, "0")` of the decimal form
      `n` of `lastNum + 1`: as long as the longer of `n` and four digits,
      ending with the whole of `n`, and zeros before it. */
  lemma DocNumberPadded(docs: seq<Document>, docType: string)
    requires NumberParses(docs, docType)
    ensures var n := NatToString(LastNumber(docs, docType) + 1);
            var r := GenerateDocNumber(docs, docType);
            |r| == 3 + (if |n| < MinDigits then MinDigits else |n|) &&
            r[..3] == Prefix(docType) && r[|r| - |n|..] == n &&
            forall i :: 3 <= i < |r| - |n| ==> r[i] == '0'
  {
    PaddedShape(Prefix(docType), NatToString(LastNumber(docs, docType) + 1));
  }

  lemma PaddedShape(p: string, n: string)
    requires |p| == 3
    ensures var r := p + (Repeat('0', ZerosFor(n)) + n);
            |r| == 3 + (if |n| < MinDigits then MinDigits else |n|) &&
            r[..3] == p && r[|r| - |n|..] == n &&
            forall i :: 3 <= i < |r| - |n| ==> r[i] == '0'
  {
    var pad := Repeat('0', ZerosFor(n));
    var r := p + (pad + n);
    SplitAfterPrefix(p, pad + n);
    assert r[|r| - |n|..] == n;
    forall i | 3 <= i < |r| - |n|
      ensures r[i] == '0'
    {
      assert r[i] == pad[i - 3];
    }
  }

  /** The generated number has at least seven characters: the prefix, then
      only digits whose value is `lastNum + 1`. */
  lemma DocNumberDigits(docs: seq<Document>, docType: string)
    requires NumberParses(docs, docType)
    ensures var r := GenerateDocNumber(docs, docType);
            |r| >= 3 + MinDigits && r[..3] == Prefix(docType) &&
            AllDigits(r[3..]) && Value(r[3..]) == LastNumber(docs, docType) + 1
  {
    NumberDigits(docType, LastNumber(docs, docType) + 1);
  }

  /** The prefix followed by the zero-padded decimal form of `next`. */
  lemma NumberDigits(docType: string, next: nat)
    ensures var n := NatToString(next);
            var r := Prefix(docType) + (Repeat('0', ZerosFor(n)) + n);
            |r| >= 3 + MinDigits && r[..3] == Prefix(docType) &&
            AllDigits(r[3..]) && Value(r[3..]) == next
  {
    var n := NatToString(next);
    var suffix := Repeat('0', ZerosFor(n)) + n;
    SuffixDigits(next);
    SplitAfterPrefix(Prefix(docType), suffix);
  }

  /** The zero-padded suffix has at least four digits and its value is
      `next`. */
  lemma SuffixDigits(next: nat)
    ensures var n := NatToString(next);
            var suffix := Repeat('0', ZerosFor(n)) + n;
            |suffix| >= MinDigits && AllDigits(suffix) && Value(suffix) == next
  {
    var n := NatToString(next);
    ValueOfNatToString(next);
    ValueIgnoresLeadingZeros(ZerosFor(n), n);
  }

  lemma SplitAfterPrefix(p: string, x: string)
    requires |p| == 3
    ensures (p + x)[..3] == p && (p + x)[3..] == x
  {
  }

  lemma {:induction false} OfTypeAppend(a: seq<Document>, b: seq<Document>, docType: string)
    ensures OfType(a + b, docType) == OfType(a, docType) + OfType(b, docType)
  {
    if b == [] {
      assert a + b == a;
    } else {
      var b' := b[..|b| - 1];
      OfTypeAppend(a, b', docType);
      assert (a + b)[..|a + b| - 1] == a + b';
      assert (a + b)[|a + b| - 1] == b[|b| - 1];
    }
  }

  /** With no document of the type loaded, the number is the prefix
      followed by `0001`. */
  lemma FirstNumberOfType(docs: seq<Document>, docType: string)
    requires OfType(docs, docType) == []
    ensures NumberParses(docs, docType)
    ensures GenerateDocNumber(docs, docType) == Prefix(docType) + "0001"
  {
    assert NatToString(1) == "1";
    assert ZerosFor("1") == 3;
    assert Repeat('0', 3) + "1" == "0001";
  }

  /** Only the last document of the type, in list order, matters: whatever
      precedes it and whatever documents of other types follow it. */
  lemma NumberFollowsLastOfType(
    before: seq<Document>, d: Document, after: seq<Document>, docType: string)
    requires d.docType == docType
    requires forall i :: 0 <= i < |after| ==> after[i].docType != docType
    ensures LastOfType(before + [d] + after, docType) == Some(d)
    ensures NumberParses(before + [d] + after, docType) == NumberParses([d], docType)
    ensures NumberParses([d], docType) ==>
              LastNumber(before + [d] + after, docType) == LastNumber([d], docType)
  {
    OfTypeEndsWith(before, d, after, docType);
    SameLastSameNumber(before + [d] + after, [d], docType);
  }

  lemma OfTypeEndsWith(before: seq<Document>, d: Document, after: seq<Document>, docType: string)
    requires d.docType == docType
    requires forall i :: 0 <= i < |after| ==> after[i].docType != docType
    ensures OfType(before + [d] + after, docType) == OfType(before, docType) + [d]
    ensures OfType([d], docType) == [d]
  {
    NoneOfType(after, docType);
    OfTypeAppend(before + [d], after, docType);
    OfTypeAppend(before, [d], docType);
    OfTypeAppend([], [d], docType);
    assert [] + [d] == [d];
  }

  /** Two lists with the same last document of the type yield the same
      `lastNum`, and so the same generated number. */
  lemma SameLastSameNumber(docs: seq<Document>, other: seq<Document>, docType: string)
    requires LastOfType(docs, docType) == LastOfType(other, docType)
    ensures NumberParses(docs, docType) == NumberParses(other, docType)
    ensures NumberParses(other, docType) ==>
              LastNumber(docs, docType) == LastNumber(other, docType)
  {
  }

  lemma {:induction false} NoneOfType(docs: seq<Document>, docType: string)
    requires forall i :: 0 <= i < |docs| ==> docs[i].docType != docType
    ensures OfType(docs, docType) == []
  {
    if docs != [] {
      NoneOfType(docs[..|docs| - 1], docType);
    }
  }

  /** A generated number, read back the way the generator reads the last
      number, gives `lastNum + 1`. */
  lemma NumberParsesBack(docs: seq<Document>, docType: string)
    requires NumberParses(docs, docType)
    ensures ParseInt(ReplaceFirst(GenerateDocNumber(docs, docType), Prefix(docType)))
            == Some(LastNumber(docs, docType) + 1)
  {
    var next := LastNumber(docs, docType) + 1;
    var n := NatToString(next);
    SuffixDigits(next);
    StripThenParse(Prefix(docType), Repeat('0', ZerosFor(n)) + n);
  }

  /** Removing a prefix put in front of a decimal digit string and parsing
      the rest gives the value of the digits. */
  lemma StripThenParse(p: string, x: string)
    requires AllDigits(x) && x != []
    ensures ParseInt(ReplaceFirst(p + x, p)) == Some(Value(x))
  {
    assert p <= p + x;
    assert (p + x)[|p|..] == x;
    ParseIntOfDigits(x);
  }

  /** Saving a document under the generated number makes the next generated
      number of that type one higher. */
  lemma NextNumberIsOneHigher(docs: seq<Document>, docType: string, saved: Document)
    requires NumberParses(docs, docType)
    requires saved.docType == docType && saved.number == GenerateDocNumber(docs, docType)
    ensures NumberParses(docs + [saved], docType)
    ensures LastNumber(docs + [saved], docType) == LastNumber(docs, docType) + 1
  {
    NumberFollowsLastOfType(docs, saved, [], docType);
    assert docs + [saved] + [] == docs + [saved];
    NumberParsesBack(docs, docType);
  }

  /** The generator takes the last order in list order, not the largest
      number: after 6200007 and then 6200003 it proposes 6200004. */
  lemma LastNotLargest()
    ensures var older := Document("6200007", OrderType, "", "", "", "", "");
            var newer := Document("6200003", OrderType, "", "", "", "", "");
            NumberParses([older, newer], OrderType) &&
            GenerateDocNumber([older, newer], OrderType) == "6200004"
  {
    var older := Document("6200007", OrderType, "", "", "", "", "");
    var newer := Document("6200003", OrderType, "", "", "", "", "");
    NumberFollowsLastOfType([older], newer, [], OrderType);
    assert [older] + [newer] + [] == [older, newer];
    LastNumberIsThree(newer);
    FourthOrder([older, newer]);
  }

  lemma LastNumberIsThree(newer: Document)
    requires newer == Document("6200003", OrderType, "", "", "", "", "")
    ensures NumberParses([newer], OrderType) && LastNumber([newer], OrderType) == 3
  {
    assert OfType([newer], OrderType) == [newer] by {
      assert [newer][..0] == [];
    }
    StripsOrderPrefix();
    ParsesThree();
  }

  lemma StripsOrderPrefix()
    ensures ReplaceFirst("6200003", OrderPrefix) == "0003"
  {
    assert "6200003" == OrderPrefix + "0003";
    SplitAfterPrefix(OrderPrefix, "0003");
  }

  lemma ParsesThree()
    ensures ParseInt("0003") == Some(3)
  {
    ParseIntOfDigits("0003");
    assert NatToString(3) == "3";
    ValueOfNatToString(3);
    ValueIgnoresLeadingZeros(3, "3");
    assert Repeat('0', 3) + "3" == "0003";
  }

  /** Without a radix, `parseInt` reads a remainder starting `0x` as
      hexadecimal: after order 6200x1A (0x1A is 26) the next order number
      is 6200027. */
  lemma HexLastNumber()
    ensures var hex := Document("6200x1A", OrderType, "", "", "", "", "");
            NumberParses([hex], OrderType) && LastNumber([hex], OrderType) == 26 &&
            GenerateDocNumber([hex], OrderType) == "6200027"
  {
    var hex := Document("6200x1A", OrderType, "", "", "", "", "");
    assert OfType([hex], OrderType) == [hex] by {
      assert [hex][..0] == [];
    }
    StripsToHex();
    ParsesHex();
    TwentyEighthOrder([hex]);
  }

  lemma StripsToHex()
    ensures ReplaceFirst("6200x1A", OrderPrefix) == "0x1A"
  {
    assert "6200x1A" == OrderPrefix + "0x1A";
    SplitAfterPrefix(OrderPrefix, "0x1A");
  }

  lemma ParsesHex()
    ensures ParseInt("0x1A") == Some(26)
  {
    var s := "0x1A";
    assert HasHexPrefix(s);
    assert s[2..] == "1A";
    assert LeadingHexDigits("1A") == "1A" by {
      assert "1A"[1..] == "A";
      assert "A"[1..] == [];
    }
    assert "1A"[..1] == "1";
    assert "1"[..0] == [];
    assert HexValue("1A") == 16 * HexValue("1") + 10;
  }

  lemma TwentyEighthOrder(docs: seq<Document>)
    requires NumberParses(docs, OrderType) && LastNumber(docs, OrderType) == 26
    ensures GenerateDocNumber(docs, OrderType) == "6200027"
  {
    PaddedTwentySeven();
  }

  lemma PaddedTwentySeven()
    ensures var n := NatToString(27); Repeat('0', ZerosFor(n)) + n == "0027"
  {
    assert NatToString(2) == "2";
    assert NatToString(7) == "7";
    assert ZerosFor("27") == 2;
    assert Repeat('0', 2) + "27" == "0027";
  }

  lemma FourthOrder(docs: seq<Document>)
    requires NumberParses(docs, OrderType) && LastNumber(docs, OrderType) == 3
    ensures GenerateDocNumber(docs, OrderType) == "6200004"
  {
    PaddedFour();
  }

  lemma PaddedFour()
    ensures var n := NatToString(4); Repeat('0', ZerosFor(n)) + n == "0004"
  {
    assert NatToString(4) == "4";
    assert ZerosFor("4") == 3;
    assert Repeat('0', 3) + "4" == "0004";
  }
}
