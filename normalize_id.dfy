/** `normalize_id` of src/augment_features.py: every `u` is removed from a
    key and what is left is read as an integer, or becomes null. */
module KeyNormalization {
  import opened Values

  /** `s.replace('u', '')`: every lower-case `u` goes, wherever it is. */
  function RemoveU(s: string): (r: string)
    ensures 'u' !in r
    ensures |r| <= |s|
  {
    if s == [] then [] else (if s[0] == 'u' then [] else [s[0]]) + RemoveU(s[1..])
  }

  /** A key without `u` is left as it is. */
  lemma {:induction false} RemoveUKeepsPlainKey(s: string)
    requires 'u' !in s
    ensures RemoveU(s) == s
  {
    if s != [] {
      assert 'u' !in s[1..];
      RemoveUKeepsPlainKey(s[1..]);
      assert s == [s[0]] + s[1..];
    }
  }

  /** Removing `u`s works character by character. */
  lemma {:induction false} RemoveUAppend(a: string, b: string)
    ensures RemoveU(a + b) == RemoveU(a) + RemoveU(b)
  {
    if a == [] {
      assert a + b == b;
    } else {
      assert (a + b)[0] == a[0] && (a + b)[1..] == a[1..] + b;
      RemoveUAppend(a[1..], b);
    }
  }

  predicate IsDigit(c: char) {
    '0' <= c <= '9'
  }

  predicate AllDigits(s: string) {
    forall k :: 0 <= k < |s| ==> IsDigit(s[k])
  }

  function DigitValue(c: char): nat
    requires IsDigit(c)
  {
    c as int - '0' as int
  }

  /** The value of a string of decimal digits, leading zeros allowed. */
  function DigitsValue(s: string): nat
    requires AllDigits(s)
  {
    if s == [] then 0 else DigitsValue(s[..|s| - 1]) * 10 + DigitValue(s[|s| - 1])
  }

  /** An optional sign followed by at least one decimal digit. */
  predicate IsIntegerLiteral(s: string) {
    || (|s| > 0 && AllDigits(s))
    || (|s| > 1 && (s[0] == '-' || s[0] == '+') && AllDigits(s[1..]))
  }

  /** `pd.to_numeric(..., errors='coerce')` on a string, as far as it
      concerns integers: a literal gives its value, anything else null. */
  function ParseInteger(s: string): (r: Option<int>)
    ensures r.Some? <==> IsIntegerLiteral(s)
  {
    if |s| > 0 && AllDigits(s) then Some(DigitsValue(s))
    else if |s| > 1 && s[0] == '-' && AllDigits(s[1..]) then Some(-(DigitsValue(s[1..]) as int))
    else if |s| > 1 && s[0] == '+' && AllDigits(s[1..]) then Some(DigitsValue(s[1..]))
    else None
  }

  /** `normalize_id` on one key. */
  function NormalizeId(raw: string): (r: Option<int>)
    ensures r.Some? <==> IsIntegerLiteral(RemoveU(raw))
  {
    ParseInteger(RemoveU(raw))
  }

  function DigitChar(d: nat): (c: char)
    requires d < 10
    ensures IsDigit(c) && DigitValue(c) == d
  {
    ('0' as int + d) as char
  }

  /** The canonical decimal rendering of a natural number. */
  function DecimalString(n: nat): (s: string)
    ensures |s| > 0 && AllDigits(s)
  {
    if n < 10 then [DigitChar(n)] else DecimalString(n / 10) + [DigitChar(n % 10)]
  }

  lemma {:induction false} DecimalStringValue(n: nat)
    ensures DigitsValue(DecimalString(n)) == n
  {
    var s := DecimalString(n);
    if n >= 10 {
      DecimalStringValue(n / 10);
      assert s[..|s| - 1] == DecimalString(n / 10);
    }
  }

  lemma DigitsHaveNoU(d: string)
    requires AllDigits(d)
    ensures RemoveU(d) == d
  {
    assert forall k :: 0 <= k < |d| ==> d[k] != 'u';
    RemoveUKeepsPlainKey(d);
  }

  /** A key written as `u` followed by the decimal digits of a number is
      normalized back to that number. */
  lemma NormalizePrefixedId(n: nat)
    ensures NormalizeId("u" + DecimalString(n)) == Some(n)
  {
    DecimalStringValue(n);
    NormalizeUDigits(DecimalString(n));
  }

  /** After `u-` the digits of a number normalize to its negation. */
  lemma NormalizePrefixedNegativeId(n: nat)
    ensures NormalizeId("u-" + DecimalString(n)) == Some(-(n as int))
  {
    DecimalStringValue(n);
    NormalizeUSignDigits(DecimalString(n));
  }

  lemma NormalizeUDigits(d: string)
    requires |d| > 0 && AllDigits(d)
    ensures NormalizeId("u" + d) == Some(DigitsValue(d))
  {
    DigitsHaveNoU(d);
    RemoveUAppend("u", d);
    assert RemoveU("u") == [] by {
      assert "u"[1..] == [];
    }
    assert RemoveU("u" + d) == d;
  }

  lemma NormalizeUSignDigits(d: string)
    requires |d| > 0 && AllDigits(d)
    ensures NormalizeId("u-" + d) == Some(-(DigitsValue(d) as int))
  {
    DigitsHaveNoU(d);
    RemoveUAppend("u-", d);
    assert RemoveU("u-") == "-" by {
      assert "u-"[1..] == "-" && "-"[1..] == [];
    }
    assert RemoveU("u-" + d) == "-" + d;
    ParseNegative(d);
  }

  /** A minus sign before digits negates their value. */
  lemma ParseNegative(d: string)
    requires |d| > 0 && AllDigits(d)
    ensures ParseInteger("-" + d) == Some(-(DigitsValue(d) as int))
  {
    var m := "-" + d;
    assert m[1..] == d;
    assert !IsDigit(m[0]);
  }

  /** A plus sign before digits leaves their value unchanged. */
  lemma ParsePositive(d: string)
    requires |d| > 0 && AllDigits(d)
    ensures ParseInteger("+" + d) == Some(DigitsValue(d) as int)
  {
    var p := "+" + d;
    assert p[1..] == d;
    assert !IsDigit(p[0]);
  }

  /** The value of every integer literal: its digits' value, negated after
      a minus sign. */
  lemma ParseIntegerValue(s: string)
    requires IsIntegerLiteral(s)
    ensures IsDigit(s[0]) ==> ParseInteger(s) == Some(DigitsValue(s) as int)
    ensures s[0] == '+' ==> ParseInteger(s) == Some(DigitsValue(s[1..]) as int)
    ensures s[0] == '-' ==> ParseInteger(s) == Some(-(DigitsValue(s[1..]) as int))
  {
    if IsDigit(s[0]) {
      assert AllDigits(s);
    } else {
      assert s[0] == '-' || s[0] == '+';
      assert s == [s[0]] + s[1..];
      if s[0] == '-' {
        ParseNegative(s[1..]);
      } else {
        ParsePositive(s[1..]);
      }
    }
  }

  /** After `u+` the digits of a key normalize to their value. */
  lemma NormalizeUPlusDigits(d: string)
    requires |d| > 0 && AllDigits(d)
    ensures NormalizeId("u+" + d) == Some(DigitsValue(d) as int)
  {
    DigitsHaveNoU(d);
    RemoveUAppend("u+", d);
    assert RemoveU("u+") == "+" by {
      assert "u+"[1..] == "+" && "+"[1..] == [];
    }
    assert RemoveU("u+" + d) == "+" + d;
    ParsePositive(d);
  }

  /** A `u` anywhere in the key, not only a leading one, is ignored. */
  lemma NormalizeIdIgnoresEveryU(a: string, b: string)
    ensures NormalizeId(a + "u" + b) == NormalizeId(a + b)
  {
    RemoveUAppend(a + "u", b);
    RemoveUAppend(a, "u");
    RemoveUAppend(a, b);
    assert RemoveU("u") == [] by {
      assert "u"[1..] == [];
    }
    assert RemoveU(a) + [] == RemoveU(a);
  }

  /** A row of the split or label table as read: its `id` string and its
      value cell (None for an empty cell). */
  datatype KeyedEntry = KeyedEntry(id: string, value: Option<string>)

  /** The same row after normalization and renaming to `user_id`. */
  datatype Entry = Entry(userId: Option<int>, value: Option<string>)

  /** `normalize_id(df, 'id')` followed by the rename: the key column is
      replaced, row for row; the value column is untouched. */
  function NormalizeTable(table: seq<KeyedEntry>): (n: seq<Entry>)
    ensures |n| == |table|
    ensures forall i :: 0 <= i < |table| ==> n[i].value == table[i].value
    ensures forall i :: 0 <= i < |table| ==>
      (n[i].userId.Some? <==> IsIntegerLiteral(RemoveU(table[i].id)))
  {
    seq(|table|, i requires 0 <= i < |table| => Entry(NormalizeId(table[i].id), table[i].value))
  }
}
