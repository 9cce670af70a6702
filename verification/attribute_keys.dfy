/**
 The attribute names the shopping-list sensor publishes: `list_name`,
 `item_<n>` and `striked_item_<n>`, where `<n>` is a counter rendered in
 decimal the way a Python f-string renders a positive integer.

 `Classify` parses a name back into its family and counter; the round-trip
 lemmas show that the three families never share a name and that distinct
 counters give distinct names.
 */
module AttributeKeys {

  const ListNameKey: string := "list_name"
  const ItemPrefix: string := "item_"
  const StrikedPrefix: string := "striked_item_"

  /** The decimal digit character for `d`. */
  function DigitChar(d: nat): (c: char)
    requires d < 10
    ensures '0' <= c <= '9'
  {
    "0123456789"[d]
  }

  /** The value of a decimal digit character. */
  function DigitValue(c: char): (d: nat)
    requires '0' <= c <= '9'
    ensures d < 10
  {
    (c as int - '0' as int) as nat
  }

  predicate IsDigit(c: char) {
    '0' <= c <= '9'
  }

  /** A non-empty string of decimal digits. */
  predicate IsDecimal(s: string) {
    |s| > 0 && forall i :: 0 <= i < |s| ==> IsDigit(s[i])
  }

  /** `n` in decimal, most significant digit first, without leading zeros. */
  function Decimal(n: nat): (s: string)
    ensures IsDecimal(s)
    ensures n > 0 ==> s[0] != '0'
  {
    if n < 10 then [DigitChar(n)] else Decimal(n / 10) + [DigitChar(n % 10)]
  }

  /** The number a digit string denotes (reading the last digit as the units). */
  function DecimalValue(s: string): nat
    requires IsDecimal(s)
  {
    if |s| == 1 then DigitValue(s[0])
    else DecimalValue(s[..|s| - 1]) * 10 + DigitValue(s[|s| - 1])
  }

  /** Reading back a digit character gives the digit. */
  lemma DigitRoundTrip(d: nat)
    requires d < 10
    ensures DigitValue(DigitChar(d)) == d
  {
  }

  /** Reading back a rendered counter gives the counter. */
  lemma {:induction false} DecimalRoundTrip(n: nat)
    ensures DecimalValue(Decimal(n)) == n
  {
    DigitRoundTrip(n % 10);
    if n >= 10 {
      var s := Decimal(n);
      var prefix := Decimal(n / 10);
      assert s[..|s| - 1] == prefix;
      assert s[|s| - 1] == DigitChar(n % 10);
      DecimalRoundTrip(n / 10);
    }
  }

  /** The name of the `n`-th unstruck item. */
  function ItemKey(n: nat): string {
    ItemPrefix + Decimal(n)
  }

  /** The name of the `n`-th struck item. */
  function StrikedKey(n: nat): string {
    StrikedPrefix + Decimal(n)
  }

  /** The family an attribute name belongs to, with its counter. */
  datatype KeyClass = ListName | Item(n: nat) | Striked(n: nat) | Other

  predicate HasPrefix(s: string, prefix: string) {
    |prefix| <= |s| && s[..|prefix|] == prefix
  }

  /**
   Parses an attribute name. Only canonical renderings are recognised, so a
   name classified as `Item(n)` or `Striked(n)` is exactly that key.
   */
  function Classify(key: string): (c: KeyClass)
    ensures c.ListName? <==> key == ListNameKey
    ensures c.Item? ==> key == ItemKey(c.n)
    ensures c.Striked? ==> key == StrikedKey(c.n)
  {
    if key == ListNameKey then ListName
    else if HasPrefix(key, ItemPrefix) && IsDecimal(key[|ItemPrefix|..]) then
      var n := DecimalValue(key[|ItemPrefix|..]);
      if ItemKey(n) == key then Item(n) else Other
    else if HasPrefix(key, StrikedPrefix) && IsDecimal(key[|StrikedPrefix|..]) then
      var n := DecimalValue(key[|StrikedPrefix|..]);
      if StrikedKey(n) == key then Striked(n) else Other
    else Other
  }

  /** Parsing an item name recovers its counter. */
  lemma ClassifyItemKey(n: nat)
    ensures Classify(ItemKey(n)) == Item(n)
  {
    var key := ItemKey(n);
    assert key[0] == 'i';
    assert ListNameKey[0] == 'l';
    assert key[..|ItemPrefix|] == ItemPrefix;
    assert key[|ItemPrefix|..] == Decimal(n);
    DecimalRoundTrip(n);
  }

  /** Parsing a struck-item name recovers its counter. */
  lemma ClassifyStrikedKey(n: nat)
    ensures Classify(StrikedKey(n)) == Striked(n)
  {
    var key := StrikedKey(n);
    assert key[0] == 's';
    assert ListNameKey[0] == 'l';
    assert key[..|ItemPrefix|][0] != ItemPrefix[0];
    assert key[..|StrikedPrefix|] == StrikedPrefix;
    assert key[|StrikedPrefix|..] == Decimal(n);
    DecimalRoundTrip(n);
  }

  /**
   No two keys the projector writes collide: `list_name`, the `item_` family
   and the `striked_item_` family are pairwise disjoint, and within a family
   the counter determines the name.
   */
  lemma KeysDistinct(a: nat, b: nat)
    ensures ItemKey(a) == ItemKey(b) <==> a == b
    ensures StrikedKey(a) == StrikedKey(b) <==> a == b
    ensures ItemKey(a) != StrikedKey(b)
    ensures ItemKey(a) != ListNameKey
    ensures StrikedKey(a) != ListNameKey
  {
    ClassifyItemKey(a);
    ClassifyItemKey(b);
    ClassifyStrikedKey(a);
    ClassifyStrikedKey(b);
  }
}
