/** The `data-clue-id` tag of a board cell: the template `${catIdx}-${clueIdx}`
    written by fillTable, and its reading in handleClick, which splits the tag
    on "-" and uses the first two pieces as array indices. An array lookup
    with a string key finds an element only when the key is the canonical
    decimal numeral of an index, so decoding accepts exactly those. */
module CellId {

  datatype Option<T> = None | Some(value: T)

  const SEPARATOR: char := '-'

  predicate IsDigit(ch: char)
  {
    '0' <= ch <= '9'
  }

  function DigitChar(d: nat): (ch: char)
    requires d < 10
    ensures IsDigit(ch) && ch as int - '0' as int == d
  {
    ('0' as int + d) as char
  }

  function DigitValue(ch: char): nat
    requires IsDigit(ch)
  {
    ch as int - '0' as int
  }

  predicate AllDigits(s: string)
  {
    forall i :: 0 <= i < |s| ==> IsDigit(s[i])
  }

  /** A canonical numeral: digits only, no leading zero except "0" itself. */
  predicate IsNumeral(s: string)
  {
    |s| >= 1 && AllDigits(s) && (|s| == 1 || s[0] != '0')
  }

  /** Decimal rendering of a natural, as a template literal writes it. */
  function NatToString(n: nat): (s: string)
    ensures IsNumeral(s)
    ensures s[0] == '0' <==> n == 0
    decreases n
  {
    if n < 10 then [DigitChar(n)] else NatToString(n / 10) + [DigitChar(n % 10)]
  }

  /** Value of a string of decimal digits, most significant first. */
  function DigitsValue(s: string): nat
    requires AllDigits(s)
  {
    if s == [] then 0 else 10 * DigitsValue(s[..|s| - 1]) + DigitValue(s[|s| - 1])
  }


  lemma {:induction false} DigitsValueOfNatToString(n: nat)
    ensures DigitsValue(NatToString(n)) == n
    decreases n
  {
    if n >= 10 {
      var s := NatToString(n);
      assert s[..|s| - 1] == NatToString(n / 10);
      DigitsValueOfNatToString(n / 10);
    }
  }

  lemma {:induction false} DigitsValueAtLeastLead(s: string)
    requires |s| >= 1 && AllDigits(s)
    ensures DigitsValue(s) >= DigitValue(s[0])
  {
    if |s| > 1 {
      var p := s[..|s| - 1];
      assert p[0] == s[0];
      DigitsValueAtLeastLead(p);
    }
  }

  lemma {:induction false} NatToStringOfDigitsValue(s: string)
    requires IsNumeral(s)
    ensures NatToString(DigitsValue(s)) == s
  {
    var last := s[|s| - 1];
    var d := DigitValue(last);
    assert DigitChar(d) == last;
    if |s| > 1 {
      var p := s[..|s| - 1];
      assert p[0] == s[0];
      assert IsNumeral(p);
      var vp := DigitsValue(p);
      DigitsValueAtLeastLead(p);
      NatToStringOfDigitsValue(p);
      var v := DigitsValue(s);
      assert v == 10 * vp + d;
      assert v >= 10 && v / 10 == vp && v % 10 == d;
      assert NatToString(v) == NatToString(vp) + [DigitChar(d)];
      assert p + [last] == s;
    }
  }

  /** The array index a string key denotes, if any: only a canonical
      numeral names an element, and it names the index it renders. */
  function ParseIndex(s: string): (index: Option<nat>)
    ensures index.None? <==> !IsNumeral(s)
    ensures index.Some? ==> NatToString(index.value) == s
  {
    if IsNumeral(s) then
      NatToStringOfDigitsValue(s);
      Some(DigitsValue(s))
    else None
  }

  /** Parsing undoes rendering, and rendering undoes parsing: canonical
      numerals and naturals are in one-to-one correspondence. */
  lemma ParseIndexIff(s: string, n: nat)
    ensures ParseIndex(s) == Some(n) <==> s == NatToString(n)
  {
    DigitsValueOfNatToString(n);
    if IsNumeral(s) {
      NatToStringOfDigitsValue(s);
    }
  }

  /** `s.split("-")`: the pieces between separators, empty pieces included. */
  function Split(s: string): (parts: seq<string>)
    ensures |parts| >= 1
    ensures forall i :: 0 <= i < |parts| ==> SEPARATOR !in parts[i]
  {
    if s == [] then [""]
    else if s[0] == SEPARATOR then [""] + Split(s[1..])
    else
      var rest := Split(s[1..]);
      [[s[0]] + rest[0]] + rest[1..]
  }

  /** The pieces put back together with "-" between them. */
  function Join(parts: seq<string>): string
    requires |parts| >= 1
  {
    if |parts| == 1 then parts[0] else parts[0] + [SEPARATOR] + Join(parts[1..])
  }

  /** Joining the pieces of a split gives back the string. */
  lemma {:induction false} JoinSplit(s: string)
    ensures Join(Split(s)) == s
  {
    if s != [] {
      var rest := Split(s[1..]);
      JoinSplit(s[1..]);
      if s[0] != SEPARATOR {
        var parts := Split(s);
        if |rest| > 1 {
          assert parts[1..] == rest[1..];
          assert Join(rest) == rest[0] + [SEPARATOR] + Join(rest[1..]);
        }
      }
    }
  }

  /** A piece without separators splits to itself. */
  lemma {:induction false} SplitPlain(a: string)
    requires SEPARATOR !in a
    ensures Split(a) == [a]
  {
    if a != [] {
      SplitPlain(a[1..]);
      assert [a[0]] + a[1..] == a;
    }
  }

  /** A separator-free prefix followed by "-" is split off as the first piece. */
  lemma {:induction false} SplitCons(a: string, b: string)
    requires SEPARATOR !in a
    ensures Split(a + [SEPARATOR] + b) == [a] + Split(b)
  {
    if a == [] {
      assert a + [SEPARATOR] + b == [SEPARATOR] + b;
      assert ([SEPARATOR] + b)[1..] == b;
    } else {
      assert (a + [SEPARATOR] + b)[1..] == a[1..] + [SEPARATOR] + b;
      SplitCons(a[1..], b);
      assert [a[0]] + a[1..] == a;
    }
  }

  lemma NoSeparatorInNumeral(n: nat)
    ensures SEPARATOR !in NatToString(n)
  {
  }

  /** The tag that fillTable puts on the cell of category `catIdx` (the
      column) and clue `clueIdx` (the row). */
  function Encode(catIdx: nat, clueIdx: nat): (id: string)
    ensures Split(id) == [NatToString(catIdx), NatToString(clueIdx)]
  {
    NoSeparatorInNumeral(catIdx);
    NoSeparatorInNumeral(clueIdx);
    SplitCons(NatToString(catIdx), NatToString(clueIdx));
    SplitPlain(NatToString(clueIdx));
    NatToString(catIdx) + [SEPARATOR] + NatToString(clueIdx)
  }

  /** handleClick's reading of a tag: the first two pieces of the split, each
      the key of an array element; any further pieces are ignored. */
  function Decode(id: string): (coords: Option<(nat, nat)>)
    ensures coords.None? <==> |Split(id)| < 2 || !IsNumeral(Split(id)[0]) || !IsNumeral(Split(id)[1])
    ensures coords.Some? ==>
      Split(id)[0] == NatToString(coords.value.0) && Split(id)[1] == NatToString(coords.value.1)
  {
    var parts := Split(id);
    if |parts| < 2 then None
    else match (ParseIndex(parts[0]), ParseIndex(parts[1]))
      case (Some(catIdx), Some(clueIdx)) => Some((catIdx, clueIdx))
      case _ => None
  }

  /** Round trip: every tag fillTable writes is read back as its own
      coordinates. */
  lemma DecodeEncode(catIdx: nat, clueIdx: nat)
    ensures Decode(Encode(catIdx, clueIdx)) == Some((catIdx, clueIdx))
  {
    var a, b := NatToString(catIdx), NatToString(clueIdx);
    NoSeparatorInNumeral(catIdx);
    NoSeparatorInNumeral(clueIdx);
    SplitCons(a, b);
    SplitPlain(b);
    ParseIndexIff(a, catIdx);
    ParseIndexIff(b, clueIdx);
  }

  /** Distinct cells carry distinct tags. */
  lemma EncodeInjective(c1: nat, r1: nat, c2: nat, r2: nat)
    requires Encode(c1, r1) == Encode(c2, r2)
    ensures c1 == c2 && r1 == r2
  {
    DecodeEncode(c1, r1);
    DecodeEncode(c2, r2);
  }

  /** A tag that starts with a canonical tag and "-" decodes like that tag. */
  lemma DecodeExtended(catIdx: nat, clueIdx: nat, tail: string)
    ensures Decode(Encode(catIdx, clueIdx) + [SEPARATOR] + tail) == Some((catIdx, clueIdx))
  {
    var a, b := NatToString(catIdx), NatToString(clueIdx);
    NoSeparatorInNumeral(catIdx);
    NoSeparatorInNumeral(clueIdx);
    assert Encode(catIdx, clueIdx) + [SEPARATOR] + tail == a + [SEPARATOR] + (b + [SEPARATOR] + tail);
    SplitCons(a, b + [SEPARATOR] + tail);
    SplitCons(b, tail);
    ParseIndexIff(a, catIdx);
    ParseIndexIff(b, clueIdx);
  }

  /** A tag that decodes to (catIdx, clueIdx) is the canonical tag, possibly
      followed by "-" and more pieces. */
  lemma DecodeSound(id: string, catIdx: nat, clueIdx: nat)
    requires Decode(id) == Some((catIdx, clueIdx))
    ensures id == Encode(catIdx, clueIdx) || Encode(catIdx, clueIdx) + [SEPARATOR] <= id
  {
    var parts := Split(id);
    ParseIndexIff(parts[0], catIdx);
    ParseIndexIff(parts[1], clueIdx);
    JoinSplit(id);
    if |parts| > 2 {
      assert Join(parts[1..]) == parts[1] + [SEPARATOR] + Join(parts[2..]);
      assert id == Encode(catIdx, clueIdx) + [SEPARATOR] + Join(parts[2..]);
    }
  }

  /** Exactly which tags decode to (catIdx, clueIdx): the canonical tag
      itself, or the canonical tag followed by "-" and anything at all. */
  lemma DecodeIff(id: string, catIdx: nat, clueIdx: nat)
    ensures Decode(id) == Some((catIdx, clueIdx)) <==>
      (id == Encode(catIdx, clueIdx) || Encode(catIdx, clueIdx) + [SEPARATOR] <= id)
  {
    var tag := Encode(catIdx, clueIdx);
    if id == tag {
      DecodeEncode(catIdx, clueIdx);
    } else if tag + [SEPARATOR] <= id {
      var tail := id[|tag| + 1..];
      assert id == tag + [SEPARATOR] + tail;
      DecodeExtended(catIdx, clueIdx, tail);
    }
    if Decode(id) == Some((catIdx, clueIdx)) {
      DecodeSound(id, catIdx, clueIdx);
    }
  }
}
