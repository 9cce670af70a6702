/**
 The shopping-list attribute projector (`ShoppingListSensor._update_state`).

 A list document becomes an item count and a fresh attribute map: `list_name`
 holds the list's name, the k-th unstruck row (in source order) is published
 as `item_k` and the k-th struck row as `striked_item_k`, the two counters
 advancing independently from 1.

 `Fold` is the source's loop read as a recursion over prefixes of the rows,
 `ProjectAttributes` is the loop itself, and `Described` is an independent,
 declarative description of the result in terms of the struck and unstruck
 subsequences. The lemmas connect the three.
 */
module Projector {
  import opened Documents
  import opened AttributeKeys

  /** The rows whose struck flag equals `struck`, in source order. */
  function Select(rows: seq<Row>, struck: bool): (r: seq<Row>)
    ensures |r| <= |rows|
    ensures forall i :: 0 <= i < |r| ==> IsStruck(r[i]) == struck
  {
    if |rows| == 0 then []
    else
      var last := rows[|rows| - 1];
      Select(rows[..|rows| - 1], struck) + (if IsStruck(last) == struck then [last] else [])
  }

  /** The unstruck rows, in source order. */
  function Unstruck(rows: seq<Row>): seq<Row> {
    Select(rows, false)
  }

  /** The struck rows, in source order. */
  function Struck(rows: seq<Row>): seq<Row> {
    Select(rows, true)
  }

  /**
   The loop state of the projector: the two next counters, the map built so
   far, and its keys in insertion order (the order a Python dict iterates in).
   */
  datatype Acc = Acc(nextItem: nat, nextStriked: nat, attrs: map<string, string>, order: seq<string>)

  /** Assigning `key` in a dict keeps the position of a key already present and appends a new one. */
  function InsertKey(order: seq<string>, key: string): (r: seq<string>)
    ensures key in r
    ensures forall k :: k in r <==> k in order || k == key
    ensures key in order ==> r == order
    ensures key !in order ==> r == order + [key]
  {
    if key in order then order else order + [key]
  }

  /** The key the next row is filed under: the current counter of its family. */
  function KeyFor(acc: Acc, row: Row): string {
    if IsStruck(row) then StrikedKey(acc.nextStriked) else ItemKey(acc.nextItem)
  }

  /** One iteration of the loop: file the row under its family's current counter, then advance that counter. */
  function Step(acc: Acc, row: Row): Acc {
    var attributeName := KeyFor(acc, row);
    var nextItem := if IsStruck(row) then acc.nextItem else acc.nextItem + 1;
    var nextStriked := if IsStruck(row) then acc.nextStriked + 1 else acc.nextStriked;
    Acc(nextItem, nextStriked, acc.attrs[attributeName := TextOf(row)], InsertKey(acc.order, attributeName))
  }

  /**
   One iteration files the row's text under the current counter of its
   family, advances exactly that counter by one, changes no other key, and
   lists a new key last.
   */
  lemma StepFilesOneRow(acc: Acc, row: Row)
    ensures Step(acc, row).attrs.Keys == acc.attrs.Keys + {KeyFor(acc, row)}
    ensures Step(acc, row).attrs[KeyFor(acc, row)] == TextOf(row)
    ensures forall key :: key in acc.attrs && key != KeyFor(acc, row) ==> Step(acc, row).attrs[key] == acc.attrs[key]
    ensures Step(acc, row).nextItem + Step(acc, row).nextStriked == acc.nextItem + acc.nextStriked + 1
    ensures IsStruck(row) ==> Step(acc, row).nextItem == acc.nextItem
    ensures !IsStruck(row) ==> Step(acc, row).nextStriked == acc.nextStriked
    ensures KeyFor(acc, row) !in acc.order ==> Step(acc, row).order == acc.order + [KeyFor(acc, row)]
  {
  }

  /** The map the projector starts from: only `list_name`. */
  function Initial(name: string): Acc {
    Acc(1, 1, map[ListNameKey := name], [ListNameKey])
  }

  /**
   The loop run over `rows`: each counter ends one past the number of rows of
   its family, so the counters advance independently.
   */
  function Fold(name: string, rows: seq<Row>): (acc: Acc)
    ensures acc.nextItem == 1 + |Unstruck(rows)|
    ensures acc.nextStriked == 1 + |Struck(rows)|
    decreases |rows|
  {
    if |rows| == 0 then Initial(name)
    else Step(Fold(name, rows[..|rows| - 1]), rows[|rows| - 1])
  }

  /** The result of projecting a list document: the native value, the attribute map and its key order. */
  datatype Projection = Projection(count: nat, attrs: map<string, string>, order: seq<string>)

  /**
   Projects a list document, as `_update_state` does: the count is the number
   of rows, and the map holds one key per row plus `list_name`, each listed
   once in insertion order.
   */
  function Project(doc: ListDoc): (p: Projection)
    ensures p.count == |RowsOf(doc)|
    ensures |p.attrs| == 1 + p.count
    ensures |p.order| == 1 + p.count
    ensures forall key :: key in p.order <==> key in p.attrs
  {
    var acc := Fold(NameOf(doc), RowsOf(doc));
    FoldDescribed(NameOf(doc), RowsOf(doc));
    FoldOrder(NameOf(doc), RowsOf(doc));
    Projection(|RowsOf(doc)|, acc.attrs, acc.order)
  }

  /** A key is one the projector may publish for `u` unstruck and `s` struck rows. */
  predicate Admissible(c: KeyClass, u: nat, s: nat) {
    match c
    case ListName => true
    case Item(n) => 1 <= n <= u
    case Striked(n) => 1 <= n <= s
    case Other => false
  }

  /**
   The declarative description of a projected map in terms of the unstruck
   rows `u` and the struck rows `s`: only admissible keys, `list_name` holds
   the name, `item_k` holds the text of the k-th unstruck row and
   `striked_item_k` that of the k-th struck row.
   */
  ghost predicate Fits(name: string, u: seq<Row>, s: seq<Row>, attrs: map<string, string>) {
    && OnlyAdmissible(attrs, |u|, |s|)
    && ListNameKey in attrs && attrs[ListNameKey] == name
    && ItemsFiled(attrs, u)
    && StruckFiled(attrs, s)
  }

  /** Every key of `attrs` is one the projector may publish for `nu` unstruck and `ns` struck rows. */
  ghost predicate OnlyAdmissible(attrs: map<string, string>, nu: nat, ns: nat) {
    forall key :: key in attrs ==> Admissible(Classify(key), nu, ns)
  }

  /** `item_k` holds the text of the k-th unstruck row, for every k. */
  ghost predicate ItemsFiled(attrs: map<string, string>, u: seq<Row>) {
    forall k :: 1 <= k <= |u| ==> ItemKey(k) in attrs && attrs[ItemKey(k)] == TextOf(u[k - 1])
  }

  /** `striked_item_k` holds the text of the k-th struck row, for every k. */
  ghost predicate StruckFiled(attrs: map<string, string>, s: seq<Row>) {
    forall k :: 1 <= k <= |s| ==> StrikedKey(k) in attrs && attrs[StrikedKey(k)] == TextOf(s[k - 1])
  }

  /** `attrs` is the map `_update_state` publishes for `name` and `rows`, stated declaratively. */
  ghost predicate DescribedBy(name: string, rows: seq<Row>, attrs: map<string, string>) {
    Fits(name, Unstruck(rows), Struck(rows), attrs)
  }

  /** `attrs` is the map `_update_state` publishes for `doc`, stated declaratively. */
  ghost predicate Described(doc: ListDoc, attrs: map<string, string>) {
    DescribedBy(NameOf(doc), RowsOf(doc), attrs)
  }

  /** Every row is either struck or unstruck. */
  lemma {:induction false} SelectPartition(rows: seq<Row>)
    ensures |Unstruck(rows)| + |Struck(rows)| == |rows|
    decreases |rows|
  {
    if |rows| > 0 {
      SelectPartition(rows[..|rows| - 1]);
    }
  }

  /** Selecting from a concatenation selects from each part. */
  lemma {:induction false} SelectAppend(a: seq<Row>, b: seq<Row>, struck: bool)
    ensures Select(a + b, struck) == Select(a, struck) + Select(b, struck)
    decreases |b|
  {
    if |b| == 0 {
      assert a + b == a;
    } else {
      assert (a + b)[..|a + b| - 1] == a + b[..|b| - 1];
      SelectAppend(a, b[..|b| - 1], struck);
    }
  }

  /** The next item key is not yet admissible, and adding it keeps every key admissible. */
  lemma AdmissibleAfterItem(attrs: map<string, string>, nu: nat, ns: nat, text: string)
    requires OnlyAdmissible(attrs, nu, ns)
    ensures ItemKey(nu + 1) !in attrs
    ensures OnlyAdmissible(attrs[ItemKey(nu + 1) := text], nu + 1, ns)
  {
    ClassifyItemKey(nu + 1);
    forall key | key in attrs[ItemKey(nu + 1) := text]
      ensures Admissible(Classify(key), nu + 1, ns)
    {
      if key != ItemKey(nu + 1) {
        assert key in attrs;
      }
    }
  }

  /** The next struck key is not yet admissible, and adding it keeps every key admissible. */
  lemma AdmissibleAfterStruck(attrs: map<string, string>, nu: nat, ns: nat, text: string)
    requires OnlyAdmissible(attrs, nu, ns)
    ensures StrikedKey(ns + 1) !in attrs
    ensures OnlyAdmissible(attrs[StrikedKey(ns + 1) := text], nu, ns + 1)
  {
    ClassifyStrikedKey(ns + 1);
    forall key | key in attrs[StrikedKey(ns + 1) := text]
      ensures Admissible(Classify(key), nu, ns + 1)
    {
      if key != StrikedKey(ns + 1) {
        assert key in attrs;
      }
    }
  }

  /** Filing an unstruck row under the next item number extends the item family. */
  lemma ItemsAfterItem(attrs: map<string, string>, u: seq<Row>, row: Row)
    requires ItemsFiled(attrs, u)
    ensures ItemsFiled(attrs[ItemKey(|u| + 1) := TextOf(row)], u + [row])
  {
    forall k | 1 <= k <= |u| + 1
      ensures ItemKey(k) in attrs[ItemKey(|u| + 1) := TextOf(row)]
      ensures attrs[ItemKey(|u| + 1) := TextOf(row)][ItemKey(k)] == TextOf((u + [row])[k - 1])
    {
      KeysDistinct(k, |u| + 1);
    }
  }

  /** Filing a struck row under the next struck number extends the struck family. */
  lemma StruckAfterStruck(attrs: map<string, string>, s: seq<Row>, row: Row)
    requires StruckFiled(attrs, s)
    ensures StruckFiled(attrs[StrikedKey(|s| + 1) := TextOf(row)], s + [row])
  {
    forall k | 1 <= k <= |s| + 1
      ensures StrikedKey(k) in attrs[StrikedKey(|s| + 1) := TextOf(row)]
      ensures attrs[StrikedKey(|s| + 1) := TextOf(row)][StrikedKey(k)] == TextOf((s + [row])[k - 1])
    {
      KeysDistinct(k, |s| + 1);
    }
  }

  /** Writing an item key leaves the struck family as it was. */
  lemma StruckAfterItem(attrs: map<string, string>, s: seq<Row>, n: nat, text: string)
    requires StruckFiled(attrs, s)
    ensures StruckFiled(attrs[ItemKey(n) := text], s)
  {
    forall k | 1 <= k <= |s|
      ensures StrikedKey(k) in attrs[ItemKey(n) := text] && attrs[ItemKey(n) := text][StrikedKey(k)] == TextOf(s[k - 1])
    {
      KeysDistinct(n, k);
    }
  }

  /** Writing a struck key leaves the item family as it was. */
  lemma ItemsAfterStruck(attrs: map<string, string>, u: seq<Row>, n: nat, text: string)
    requires ItemsFiled(attrs, u)
    ensures ItemsFiled(attrs[StrikedKey(n) := text], u)
  {
    forall k | 1 <= k <= |u|
      ensures ItemKey(k) in attrs[StrikedKey(n) := text] && attrs[StrikedKey(n) := text][ItemKey(k)] == TextOf(u[k - 1])
    {
      KeysDistinct(k, n);
    }
  }

  /** Filing one more unstruck row under the next item number uses a fresh key and keeps the description. */
  lemma AddUnstruck(name: string, u: seq<Row>, s: seq<Row>, attrs: map<string, string>, row: Row)
    requires Fits(name, u, s, attrs)
    ensures ItemKey(|u| + 1) !in attrs
    ensures Fits(name, u + [row], s, attrs[ItemKey(|u| + 1) := TextOf(row)])
  {
    AdmissibleAfterItem(attrs, |u|, |s|, TextOf(row));
    ItemsAfterItem(attrs, u, row);
    StruckAfterItem(attrs, s, |u| + 1, TextOf(row));
    KeysDistinct(|u| + 1, 0);
  }

  /** Filing one more struck row under the next struck number uses a fresh key and keeps the description. */
  lemma AddStruck(name: string, u: seq<Row>, s: seq<Row>, attrs: map<string, string>, row: Row)
    requires Fits(name, u, s, attrs)
    ensures StrikedKey(|s| + 1) !in attrs
    ensures Fits(name, u, s + [row], attrs[StrikedKey(|s| + 1) := TextOf(row)])
  {
    AdmissibleAfterStruck(attrs, |u|, |s|, TextOf(row));
    StruckAfterStruck(attrs, s, row);
    ItemsAfterStruck(attrs, u, |s| + 1, TextOf(row));
    KeysDistinct(0, |s| + 1);
  }

  /** The last iteration files its row under a key not yet present and keeps the declarative description true. */
  lemma StepKeepsDescribed(name: string, rows: seq<Row>)
    requires |rows| > 0
    requires DescribedBy(name, rows[..|rows| - 1], Fold(name, rows[..|rows| - 1]).attrs)
    ensures KeyFor(Fold(name, rows[..|rows| - 1]), rows[|rows| - 1]) !in Fold(name, rows[..|rows| - 1]).attrs
    ensures DescribedBy(name, rows, Fold(name, rows).attrs)
  {
    var prefix, row := rows[..|rows| - 1], rows[|rows| - 1];
    var acc := Fold(name, prefix);
    var u, s := Unstruck(prefix), Struck(prefix);
    if IsStruck(row) {
      assert Unstruck(rows) == u && Struck(rows) == s + [row];
      AddStruck(name, u, s, acc.attrs, row);
    } else {
      assert Unstruck(rows) == u + [row] && Struck(rows) == s;
      AddUnstruck(name, u, s, acc.attrs, row);
    }
  }

  /** An iteration that files its row under a fresh key grows the map by exactly one key. */
  lemma StepGrowsByOne(acc: Acc, row: Row)
    requires KeyFor(acc, row) !in acc.attrs
    ensures |Step(acc, row).attrs| == |acc.attrs| + 1
  {
    StepFilesOneRow(acc, row);
  }

  /**
   The loop keeps the declarative description true of the map it has built,
   and every iteration adds a fresh key, so the map ends with exactly one key
   per row plus `list_name`.
   */
  lemma {:induction false} FoldDescribed(name: string, rows: seq<Row>)
    ensures DescribedBy(name, rows, Fold(name, rows).attrs)
    ensures |Fold(name, rows).attrs| == 1 + |rows|
    decreases |rows|
  {
    if |rows| > 0 {
      FoldDescribed(name, rows[..|rows| - 1]);
      StepKeepsDescribed(name, rows);
      StepGrowsByOne(Fold(name, rows[..|rows| - 1]), rows[|rows| - 1]);
    }
  }

  /** The projection of a document is described by the declarative reference, and its count is the number of rows. */
  lemma ProjectDescribed(doc: ListDoc)
    ensures Project(doc).count == |RowsOf(doc)|
    ensures Described(doc, Project(doc).attrs)
  {
    FoldDescribed(NameOf(doc), RowsOf(doc));
  }

  /** At most one map fits the declarative description of a document. */
  lemma DescribedUnique(doc: ListDoc, a: map<string, string>, b: map<string, string>)
    requires Described(doc, a) && Described(doc, b)
    ensures a == b
  {
  }

  /** A map is the projection of a document exactly when it fits the declarative description. */
  lemma ProjectCharacterized(doc: ListDoc, attrs: map<string, string>)
    ensures Described(doc, attrs) <==> attrs == Project(doc).attrs
  {
    ProjectDescribed(doc);
    if Described(doc, attrs) {
      DescribedUnique(doc, attrs, Project(doc).attrs);
    }
  }

  /**
   The map has one key per row plus `list_name`: no item overwrote another,
   and the unstruck and struck counts add up to the row count.
   */
  lemma KeyCount(doc: ListDoc)
    ensures |Project(doc).attrs| == 1 + Project(doc).count
    ensures |Unstruck(RowsOf(doc))| + |Struck(RowsOf(doc))| == Project(doc).count
  {
    FoldDescribed(NameOf(doc), RowsOf(doc));
    SelectPartition(RowsOf(doc));
  }

  /** A document without rows (or with an empty list) projects to a count of 0 and only `list_name`. */
  lemma NoRows(doc: ListDoc)
    requires doc.rows.None? || doc.rows == Some([])
    ensures Project(doc) == Projection(0, map[ListNameKey := NameOf(doc)], [ListNameKey])
  {
  }

  /** The number an unstruck row at position `i` is published under: one plus the unstruck rows before it. */
  function ItemNumber(rows: seq<Row>, i: nat): nat
    requires i <= |rows|
  {
    1 + |Unstruck(rows[..i])|
  }

  /** The number a struck row at position `i` is published under: one plus the struck rows before it. */
  function StrikedNumber(rows: seq<Row>, i: nat): nat
    requires i <= |rows|
  {
    1 + |Struck(rows[..i])|
  }

  /** The `k`-th row of a family, counted from 1, is the row at position `i` of the list. */
  lemma {:induction false} SelectLocates(rows: seq<Row>, i: nat, struck: bool)
    requires i < |rows| && IsStruck(rows[i]) == struck
    ensures |Select(rows[..i], struck)| < |Select(rows, struck)|
    ensures Select(rows, struck)[|Select(rows[..i], struck)|] == rows[i]
  {
    assert rows == rows[..i] + [rows[i]] + rows[i + 1..];
    SelectAppend(rows[..i] + [rows[i]], rows[i + 1..], struck);
    SelectAppend(rows[..i], [rows[i]], struck);
    assert Select([rows[i]], struck) == [rows[i]] by {
      assert [rows[i]][..0] == [];
    }
  }

  /**
   Every row appears in the map under the number of its family, counted in
   source order: an unstruck row at position `i` is `item_n` with `n` one
   past the unstruck rows before it, a struck row likewise in its own family.
   */
  lemma RowPublished(doc: ListDoc, i: nat)
    requires i < |RowsOf(doc)|
    ensures var rows := RowsOf(doc); var attrs := Project(doc).attrs;
      if IsStruck(rows[i]) then
        StrikedKey(StrikedNumber(rows, i)) in attrs && attrs[StrikedKey(StrikedNumber(rows, i))] == TextOf(rows[i])
      else
        ItemKey(ItemNumber(rows, i)) in attrs && attrs[ItemKey(ItemNumber(rows, i))] == TextOf(rows[i])
  {
    var rows := RowsOf(doc);
    ProjectDescribed(doc);
    SelectLocates(rows, i, IsStruck(rows[i]));
  }

  /** Within a family, numbers follow source order: a later row gets a strictly larger number. */
  lemma {:induction false} NumbersFollowSourceOrder(rows: seq<Row>, i: nat, j: nat, struck: bool)
    requires i < j <= |rows| && IsStruck(rows[i]) == struck
    ensures |Select(rows[..i], struck)| < |Select(rows[..j], struck)|
  {
    assert rows[..j][..i] == rows[..i];
    SelectLocates(rows[..j], i, struck);
  }

  /** A row of one family leaves the other family's counter where it was. */
  lemma CountersIndependent(rows: seq<Row>, i: nat)
    requires i < |rows|
    ensures IsStruck(rows[i]) ==> ItemNumber(rows, i + 1) == ItemNumber(rows, i)
    ensures IsStruck(rows[i]) ==> StrikedNumber(rows, i + 1) == StrikedNumber(rows, i) + 1
    ensures !IsStruck(rows[i]) ==> StrikedNumber(rows, i + 1) == StrikedNumber(rows, i)
    ensures !IsStruck(rows[i]) ==> ItemNumber(rows, i + 1) == ItemNumber(rows, i) + 1
  {
    assert rows[..i + 1][..i] == rows[..i];
  }

  /** The key the row at position `i` is published under: its family's prefix and its number in that family. */
  function RowKey(rows: seq<Row>, i: nat): string
    requires i < |rows|
  {
    if IsStruck(rows[i]) then StrikedKey(StrikedNumber(rows, i)) else ItemKey(ItemNumber(rows, i))
  }

  /** The key the loop files the next row under is never already in the map. */
  lemma NextKeyFresh(name: string, rows: seq<Row>, row: Row)
    ensures KeyFor(Fold(name, rows), row) !in Fold(name, rows).attrs
  {
    FoldDescribed(name, rows);
    ClassifyItemKey(1 + |Unstruck(rows)|);
    ClassifyStrikedKey(1 + |Struck(rows)|);
  }

  /** No element of `s` is listed twice. */
  predicate NoDuplicates(s: seq<string>) {
    forall i, j :: 0 <= i < j < |s| ==> s[i] != s[j]
  }

  /** Appending an element not yet listed keeps a sequence free of duplicates. */
  lemma AppendFresh(s: seq<string>, key: string)
    requires NoDuplicates(s) && key !in s
    ensures NoDuplicates(s + [key])
  {
    forall i, j | 0 <= i < j < |s| + 1
      ensures (s + [key])[i] != (s + [key])[j]
    {
      if j == |s| {
        assert (s + [key])[i] == s[i];
      }
    }
  }

  /** Rows after position `i` do not change the key row `i` is published under. */
  lemma RowKeyOfPrefix(rows: seq<Row>, n: nat, i: nat)
    requires i < n <= |rows|
    ensures RowKey(rows[..n], i) == RowKey(rows, i)
  {
    assert rows[..n][..i] == rows[..i];
  }

  /** The last row is published under the key the loop holds for it when it gets there. */
  lemma RowKeyOfLast(name: string, rows: seq<Row>)
    requires |rows| > 0
    ensures RowKey(rows, |rows| - 1) == KeyFor(Fold(name, rows[..|rows| - 1]), rows[|rows| - 1])
  {
  }

  /**
   The keys the loop inserts are listed once each, in insertion order:
   `list_name` first, then the key of every row in source order.
   */
  lemma {:induction false} FoldOrder(name: string, rows: seq<Row>)
    ensures |Fold(name, rows).order| == 1 + |rows|
    ensures Fold(name, rows).order[0] == ListNameKey
    ensures forall i :: 0 <= i < |rows| ==> Fold(name, rows).order[i + 1] == RowKey(rows, i)
    ensures forall key :: key in Fold(name, rows).order <==> key in Fold(name, rows).attrs
    ensures NoDuplicates(Fold(name, rows).order)
    decreases |rows|
  {
    if |rows| > 0 {
      var prefix := rows[..|rows| - 1];
      var row := rows[|rows| - 1];
      FoldOrder(name, prefix);
      var acc := Fold(name, prefix);
      var key := KeyFor(acc, row);
      NextKeyFresh(name, prefix, row);
      assert Fold(name, rows) == Step(acc, row);
      assert key !in acc.order;
      StepFilesOneRow(acc, row);
      var order := acc.order + [key];
      AppendFresh(acc.order, key);
      RowKeyOfLast(name, rows);
      KeysOfPrefixExtend(rows, prefix, acc.order, key);
    }
  }

  /** Keys listed for the rows of a prefix, followed by the last row's key, are the keys of all rows. */
  lemma KeysOfPrefixExtend(rows: seq<Row>, prefix: seq<Row>, order: seq<string>, key: string)
    requires |rows| > 0 && prefix == rows[..|rows| - 1] && |order| == |rows|
    requires forall i :: 0 <= i < |prefix| ==> order[i + 1] == RowKey(prefix, i)
    requires key == RowKey(rows, |rows| - 1)
    ensures forall i :: 0 <= i < |rows| ==> (order + [key])[i + 1] == RowKey(rows, i)
  {
    forall i | 0 <= i < |rows|
      ensures (order + [key])[i + 1] == RowKey(rows, i)
    {
      if i < |rows| - 1 {
        assert (order + [key])[i + 1] == order[i + 1] == RowKey(prefix, i);
        RowKeyOfPrefix(rows, |rows| - 1, i);
      } else {
        assert (order + [key])[i + 1] == key;
      }
    }
  }

  /**
   The published map lists `list_name` first and then each row's key in
   source order, with no key listed twice: a Python dict iterates in that order.
   */
  lemma PublishedOrder(doc: ListDoc)
    ensures Project(doc).order[0] == ListNameKey
    ensures forall i :: 0 <= i < |RowsOf(doc)| ==> Project(doc).order[i + 1] == RowKey(RowsOf(doc), i)
    ensures NoDuplicates(Project(doc).order)
  {
    FoldOrder(NameOf(doc), RowsOf(doc));
  }

  /**
   A row with neither `text` nor `isStriked`, at any position, counts as
   unstruck and is published as the empty string.
   */
  lemma BareRowDefaults(doc: ListDoc, i: nat)
    requires i < |RowsOf(doc)| && RowsOf(doc)[i] == Row(None, None)
    ensures ItemKey(ItemNumber(RowsOf(doc), i)) in Project(doc).attrs
    ensures Project(doc).attrs[ItemKey(ItemNumber(RowsOf(doc), i))] == ""
  {
    RowPublished(doc, i);
  }

  /** A document without `name` publishes `list_name` as the empty string. */
  lemma MissingNameDefaults(doc: ListDoc)
    requires doc.name.None?
    ensures ListNameKey in Project(doc).attrs && Project(doc).attrs[ListNameKey] == ""
  {
    ProjectDescribed(doc);
  }

  /** The loop state after the first two rows (Milk, struck Soap) of the weekly list. */
  lemma WeeklyFirstTwoRows()
    ensures
      var rows := [Row(Some("Milk"), Some(false)), Row(Some("Soap"), Some(true)), Row(Some("Bread"), Some(false))];
      Fold("Weekly", rows[..2]) == Acc(2, 2, map[ListNameKey := "Weekly", ItemKey(1) := "Milk", StrikedKey(1) := "Soap"],
        [ListNameKey, ItemKey(1), StrikedKey(1)])
  {
    var rows := [Row(Some("Milk"), Some(false)), Row(Some("Soap"), Some(true)), Row(Some("Bread"), Some(false))];
    KeysDistinct(1, 1);
    assert rows[..2][..1] == rows[..1] && rows[..1][..0] == [];
    var acc1 := Step(Initial("Weekly"), rows[0]);
    assert acc1 == Acc(2, 1, map[ListNameKey := "Weekly", ItemKey(1) := "Milk"], [ListNameKey, ItemKey(1)]);
    assert Fold("Weekly", rows[..1]) == acc1;
  }

  /** A mixed list: struck and unstruck rows are numbered by their own counters, keys listed in row order. */
  lemma WeeklyExample()
    ensures
      var doc := ListDoc(Some("Weekly"), Some([
        Row(Some("Milk"), Some(false)), Row(Some("Soap"), Some(true)), Row(Some("Bread"), Some(false))]));
      Project(doc) == Projection(3,
        map[ListNameKey := "Weekly", ItemKey(1) := "Milk", StrikedKey(1) := "Soap", ItemKey(2) := "Bread"],
        [ListNameKey, ItemKey(1), StrikedKey(1), ItemKey(2)])
  {
    var rows := [Row(Some("Milk"), Some(false)), Row(Some("Soap"), Some(true)), Row(Some("Bread"), Some(false))];
    WeeklyFirstTwoRows();
    KeysDistinct(2, 1);
    KeysDistinct(2, 2);
    assert Fold("Weekly", rows) == Step(Fold("Weekly", rows[..2]), rows[2]);
  }

  /**
   The map depends only on the name and on the unstruck and struck rows taken
   separately: interleaving the two families differently gives the same map.
   */
  lemma MapDependsOnFamiliesOnly(a: ListDoc, b: ListDoc)
    requires NameOf(a) == NameOf(b)
    requires Unstruck(RowsOf(a)) == Unstruck(RowsOf(b)) && Struck(RowsOf(a)) == Struck(RowsOf(b))
    ensures Project(a).attrs == Project(b).attrs
  {
    ProjectDescribed(a);
    ProjectDescribed(b);
    DescribedUnique(a, Project(a).attrs, Project(b).attrs);
  }

  /** Swapping two adjacent rows of different families leaves each family as it was. */
  lemma SwapKeepsFamilies(p: seq<Row>, q: seq<Row>, x: Row, y: Row, struck: bool)
    requires IsStruck(x) != IsStruck(y)
    ensures Select(p + [x, y] + q, struck) == Select(p + [y, x] + q, struck)
  {
    SelectAppend(p + [x, y], q, struck);
    SelectAppend(p, [x, y], struck);
    SelectAppend(p + [y, x], q, struck);
    SelectAppend(p, [y, x], struck);
    SelectAppend([x], [y], struck);
    SelectAppend([y], [x], struck);
    assert [x] + [y] == [x, y] && [y] + [x] == [y, x];
    assert [x][..0] == [] && [y][..0] == [];
  }

  /**
   Moving a struck row past an unstruck neighbour, anywhere in the list, leaves
   the map as it was but changes the order its keys are listed in.
   */
  lemma OrderFollowsStruckPosition(name: Option<string>, p: seq<Row>, q: seq<Row>, st: Row, un: Row)
    requires IsStruck(st) && !IsStruck(un)
    ensures Project(ListDoc(name, Some(p + [st, un] + q))).attrs == Project(ListDoc(name, Some(p + [un, st] + q))).attrs
    ensures Project(ListDoc(name, Some(p + [st, un] + q))).order != Project(ListDoc(name, Some(p + [un, st] + q))).order
  {
    var ra, rb := p + [st, un] + q, p + [un, st] + q;
    var a, b := ListDoc(name, Some(ra)), ListDoc(name, Some(rb));
    SwapKeepsFamilies(p, q, st, un, false);
    SwapKeepsFamilies(p, q, st, un, true);
    MapDependsOnFamiliesOnly(a, b);
    PublishedOrder(a);
    PublishedOrder(b);
    var k := |p|;
    assert RowsOf(a) == ra && RowsOf(b) == rb && k < |ra| == |rb|;
    assert ra[k] == st && rb[k] == un;
    assert RowKey(ra, k) == StrikedKey(StrikedNumber(ra, k));
    assert RowKey(rb, k) == ItemKey(ItemNumber(rb, k));
    assert Project(a).order[k + 1] == RowKey(ra, k);
    assert Project(b).order[k + 1] == RowKey(rb, k);
    KeysDistinct(ItemNumber(rb, k), StrikedNumber(ra, k));
  }

  /**
   The projector loop of `_update_state`, with its two 1-based counters and a
   dict's insertion order.
   */
  method ProjectAttributes(doc: ListDoc) returns (count: nat, attrs: map<string, string>, order: seq<string>)
    ensures count == |RowsOf(doc)|
    ensures Described(doc, attrs)
    ensures |attrs| == 1 + count
    ensures |order| == 1 + count && order[0] == ListNameKey
    ensures forall i :: 0 <= i < count ==> order[i + 1] == RowKey(RowsOf(doc), i)
  {
    var items := RowsOf(doc);
    count := |items|;
    attrs := map[ListNameKey := NameOf(doc)];
    order := [ListNameKey];
    var itemIdx := 1;
    var strikedIdx := 1;
    var i := 0;
    while i < |items|
      invariant 0 <= i <= |items|
      invariant Acc(itemIdx, strikedIdx, attrs, order) == Fold(NameOf(doc), items[..i])
    {
      var item := items[i];
      ghost var before := Acc(itemIdx, strikedIdx, attrs, order);
      var attributeName;
      if IsStruck(item) {
        attributeName := StrikedKey(strikedIdx);
        strikedIdx := strikedIdx + 1;
      } else {
        attributeName := ItemKey(itemIdx);
        itemIdx := itemIdx + 1;
      }
      attrs := attrs[attributeName := TextOf(item)];
      if attributeName !in order {
        order := order + [attributeName];
      }
      assert Acc(itemIdx, strikedIdx, attrs, order) == Step(before, item);
      assert items[..i + 1][..i] == items[..i];
      i := i + 1;
    }
    assert items[..i] == items;
    FoldDescribed(NameOf(doc), items);
    FoldOrder(NameOf(doc), items);
  }
}
