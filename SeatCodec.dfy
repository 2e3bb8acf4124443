/** The text form of a reservation's seat list: the decimal ids joined by
    commas, as the reservations table stores them, and the parser that reads
    such a text back. */
module SeatCodec {

  import opened Wrappers

  predicate IsDigit(c: char) {
    '0' <= c <= '9'
  }

  function DigitChar(d: nat): (c: char)
    requires d < 10
    ensures IsDigit(c)
  {
    ('0' as int + d) as char
  }

  function DigitValue(c: char): nat
    requires IsDigit(c)
  {
    c as int - '0' as int
  }

  /** The decimal form of n, without sign or leading zeros. */
  function NatToString(n: nat): (t: string)
    ensures |t| >= 1
    ensures forall i :: 0 <= i < |t| ==> IsDigit(t[i])
    decreases n
  {
    if n < 10 then [DigitChar(n)] else NatToString(n / 10) + [DigitChar(n % 10)]
  }

  /** The value of a string of decimal digits. */
  function DigitsValue(t: string): nat
    requires forall i :: 0 <= i < |t| ==> IsDigit(t[i])
  {
    if |t| == 0 then 0 else DigitsValue(t[..|t| - 1]) * 10 + DigitValue(t[|t| - 1])
  }

  /** A non-empty string of decimal digits read as a number; anything else is rejected. */
  function ParseNat(t: string): Option<nat> {
    if |t| > 0 && forall i :: 0 <= i < |t| ==> IsDigit(t[i]) then Some(DigitsValue(t)) else None
  }

  /** The ids written in decimal and joined by commas. */
  function JoinIds(ids: seq<nat>): string {
    if |ids| == 0 then ""
    else if |ids| == 1 then NatToString(ids[0])
    else NatToString(ids[0]) + "," + JoinIds(ids[1..])
  }

  /** The comma-separated fields of t; a text without commas is a single field. */
  function Split(t: string): (fields: seq<string>)
    ensures |fields| >= 1
    decreases |t|
  {
    if |t| == 0 then [""]
    else
      var rest := Split(t[1..]);
      if t[0] == ',' then [""] + rest else [[t[0]] + rest[0]] + rest[1..]
  }

  function ParseFields(fields: seq<string>): Option<seq<nat>> {
    if |fields| == 0 then Some([])
    else match (ParseNat(fields[0]), ParseFields(fields[1..]))
      case (Some(n), Some(ns)) => Some([n] + ns)
      case _ => None
  }

  /** Reads a stored seat list back: the empty text is the empty list. */
  function ParseIds(t: string): Option<seq<nat>> {
    if |t| == 0 then Some([]) else ParseFields(Split(t))
  }

  // ---------------------------------------------------------------------------

  lemma {:induction false} DigitsValueOfNat(n: nat)
    ensures DigitsValue(NatToString(n)) == n
    decreases n
  {
    var t := NatToString(n);
    if n >= 10 {
      DigitsValueOfNat(n / 10);
      assert t[..|t| - 1] == NatToString(n / 10);
    }
  }

  /** Decimal formatting is undone by parsing. */
  lemma ParseNatToString(n: nat)
    ensures ParseNat(NatToString(n)) == Some(n)
  {
    DigitsValueOfNat(n);
  }

  lemma {:induction false} SplitSingle(p: string)
    requires ',' !in p
    ensures Split(p) == [p]
    decreases |p|
  {
    if |p| > 0 {
      SplitSingle(p[1..]);
      assert [p[0]] + p[1..] == p;
    }
  }

  lemma {:induction false} SplitCons(p: string, t: string)
    requires ',' !in p
    ensures Split(p + "," + t) == [p] + Split(t)
    decreases |p|
  {
    var u := p + "," + t;
    if |p| == 0 {
      assert u[1..] == t;
    } else {
      assert u[1..] == p[1..] + "," + t;
      SplitCons(p[1..], t);
      assert [p[0]] + p[1..] == p;
    }
  }

  lemma DigitsHaveNoComma(n: nat)
    ensures ',' !in NatToString(n)
  {
  }

  lemma {:induction false} ParseJoinNonEmpty(ids: seq<nat>)
    requires |ids| >= 1
    ensures ParseFields(Split(JoinIds(ids))) == Some(ids)
    decreases |ids|
  {
    var head := NatToString(ids[0]);
    DigitsHaveNoComma(ids[0]);
    ParseNatToString(ids[0]);
    if |ids| == 1 {
      SplitSingle(head);
      assert JoinIds(ids) == head;
      assert ParseFields([head][1..]) == Some([]);
      assert ParseFields([head]) == Some([ids[0]] + []);
      assert [ids[0]] + [] == ids;
    } else {
      SplitCons(head, JoinIds(ids[1..]));
      ParseJoinNonEmpty(ids[1..]);
      var fields := Split(JoinIds(ids));
      assert fields[0] == head;
      assert fields[1..] == Split(JoinIds(ids[1..]));
      assert [ids[0]] + ids[1..] == ids;
    }
  }

  /** The stored text of a seat list reads back as the same list. */
  lemma ParseJoinIds(ids: seq<nat>)
    ensures ParseIds(JoinIds(ids)) == Some(ids)
  {
    if |ids| >= 1 {
      ParseJoinNonEmpty(ids);
    }
  }
}
