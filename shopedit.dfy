/** The field-update list both barbershop editors build: PUT /barber/barbershop
    (src/routes/barber.js:111-153) and PUT /admin/barbershops/:id (src/routes/admin.js:134-176).
    Each pushes a column and its value, in a fixed column order, for every body field it takes,
    then binds the shop id last in `UPDATE barbershops SET ... WHERE id = ?`.  The two differ in
    the price only: the owner's editor takes any defined `narx` and binds `Number(narx)`, the
    admin's takes a truthy `narx` and binds it as it came. */
module ShopEdit {
  import opened Text
  import opened JsValues
  import opened Queries
  import opened Store

  datatype Column = Name | Image | Address | Phone | Description | Price | OpeningTime | ClosingTime

  /** The position of a column in the order the editors test the body fields. */
  function Rank(c: Column): (r: nat)
    ensures r < 8
  {
    match c
    case Name => 0
    case Image => 1
    case Address => 2
    case Phone => 3
    case Description => 4
    case Price => 5
    case OpeningTime => 6
    case ClosingTime => 7
  }

  lemma RankInjective(a: Column, b: Column)
    ensures Rank(a) == Rank(b) <==> a == b
  {
  }

  /** The request-body field a column is taken from. */
  function BodyKey(c: Column): string {
    match c
    case Name => "nomi"
    case Image => "rasm"
    case Address => "manzil"
    case Phone => "telefon"
    case Description => "malumot"
    case Price => "narx"
    case OpeningTime => "ochilishVaqti"
    case ClosingTime => "yopilishVaqti"
  }

  datatype Editor = OwnerEditor | AdminEditor

  /** Whether the editor pushes the column: `rasm` and `malumot` whenever they are defined,
      the owner's price whenever it is defined, everything else when truthy. */
  predicate Included(editor: Editor, updates: map<string, Value>, c: Column) {
    var v := Lookup(updates, BodyKey(c));
    if c == Image || c == Description || (c == Price && editor == OwnerEditor) then v != Undefined
    else Truthy(v)
  }

  /** `Number(narx)`: the owner's price as the number it converts to. */
  function OwnerPrice(v: Value): (p: Value)
    ensures p.Num? && p.n == ToNumber(v)
  {
    Num(ToNumber(v))
  }

  /** The value the editor pushes for the column. */
  function Bound(editor: Editor, updates: map<string, Value>, c: Column): Value {
    var v := Lookup(updates, BodyKey(c));
    if c == Price && editor == OwnerEditor then OwnerPrice(v) else v
  }

  /** The column of a rank. */
  function ColumnAt(n: nat): (c: Column)
    requires n < 8
    ensures Rank(c) == n
  {
    if n == 0 then Name else if n == 1 then Image else if n == 2 then Address else if n == 3 then Phone
    else if n == 4 then Description else if n == 5 then Price else if n == 6 then OpeningTime else ClosingTime
  }

  /** What one test pushes on `fields`: the column, when the editor takes it. */
  function PushedField(editor: Editor, updates: map<string, Value>, c: Column): seq<Column> {
    if Included(editor, updates, c) then [c] else []
  }

  /** What one test pushes on `values`: the bound value, when the editor takes the column. */
  function PushedValue(editor: Editor, updates: map<string, Value>, c: Column): seq<Value> {
    if Included(editor, updates, c) then [Bound(editor, updates, c)] else []
  }

  /** The columns pushed once the first n body fields have been tested. */
  function PushedFields(editor: Editor, updates: map<string, Value>, n: nat): seq<Column>
    requires n <= 8
  {
    if n == 0 then [] else PushedFields(editor, updates, n - 1) + PushedField(editor, updates, ColumnAt(n - 1))
  }

  /** The values pushed once the first n body fields have been tested. */
  function PushedValues(editor: Editor, updates: map<string, Value>, n: nat): seq<Value>
    requires n <= 8
  {
    if n == 0 then [] else PushedValues(editor, updates, n - 1) + PushedValue(editor, updates, ColumnAt(n - 1))
  }

  /** The pushed lists hold the included columns of rank below n, in rank order, each with
      its bound value. */
  predicate PushedShape(editor: Editor, updates: map<string, Value>, n: nat, fields: seq<Column>, values: seq<Value>) {
    && |fields| == |values|
    && (forall c {:trigger c in fields} :: c in fields <==> Rank(c) < n && Included(editor, updates, c))
    && (forall i, j :: 0 <= i < j < |fields| ==> Rank(fields[i]) < Rank(fields[j]))
    && (forall i {:trigger values[i]} :: 0 <= i < |fields| ==> values[i] == Bound(editor, updates, fields[i]))
  }

  /** Testing the column next in rank keeps the shape, one rank further. */
  lemma PushedStep(editor: Editor, updates: map<string, Value>, c: Column, fields: seq<Column>, values: seq<Value>)
    requires PushedShape(editor, updates, Rank(c), fields, values)
    ensures PushedShape(editor, updates, Rank(c) + 1, fields + PushedField(editor, updates, c),
                        values + PushedValue(editor, updates, c))
  {
    if Included(editor, updates, c) {
      var f, v := fields + [c], values + [Bound(editor, updates, c)];
      forall d ensures d in f <==> Rank(d) < Rank(c) + 1 && Included(editor, updates, d) {
        RankInjective(c, d);
        assert d in f <==> d in fields || d == c;
      }
      forall i, j | 0 <= i < j < |f| ensures Rank(f[i]) < Rank(f[j]) {
        if j == |fields| {
          assert fields[i] in fields;
        } else {
          assert f[i] == fields[i] && f[j] == fields[j];
        }
      }
      forall i | 0 <= i < |f| ensures v[i] == Bound(editor, updates, f[i]) {
        if i < |fields| {
          assert v[i] == values[i] && f[i] == fields[i];
        }
      }
      assert PushedShape(editor, updates, Rank(c) + 1, f, v);
    } else {
      assert fields + [] == fields && values + [] == values;
      forall d ensures d in fields <==> Rank(d) < Rank(c) + 1 && Included(editor, updates, d) {
        RankInjective(c, d);
      }
    }
  }

  /** After n tests, the pushed columns are the included ones of rank below n, in rank order,
      each with its bound value. */
  lemma {:induction false} PushedSpec(editor: Editor, updates: map<string, Value>, n: nat)
    requires n <= 8
    ensures PushedShape(editor, updates, n, PushedFields(editor, updates, n), PushedValues(editor, updates, n))
  {
    if n > 0 {
      PushedSpec(editor, updates, n - 1);
      PushedStep(editor, updates, ColumnAt(n - 1), PushedFields(editor, updates, n - 1), PushedValues(editor, updates, n - 1));
    }
  }

  /** The eight tests in the editors' order push what the first eight ranks push. */
  lemma AllPushed(editor: Editor, updates: map<string, Value>)
    ensures PushedFields(editor, updates, 8)
         == [] + PushedField(editor, updates, Name) + PushedField(editor, updates, Image)
            + PushedField(editor, updates, Address) + PushedField(editor, updates, Phone)
            + PushedField(editor, updates, Description) + PushedField(editor, updates, Price)
            + PushedField(editor, updates, OpeningTime) + PushedField(editor, updates, ClosingTime)
    ensures PushedValues(editor, updates, 8)
         == [] + PushedValue(editor, updates, Name) + PushedValue(editor, updates, Image)
            + PushedValue(editor, updates, Address) + PushedValue(editor, updates, Phone)
            + PushedValue(editor, updates, Description) + PushedValue(editor, updates, Price)
            + PushedValue(editor, updates, OpeningTime) + PushedValue(editor, updates, ClosingTime)
  {
    var cs := [Name, Image, Address, Phone, Description, Price, OpeningTime, ClosingTime];
    forall k | 0 <= k < 8 ensures ColumnAt(k) == cs[k] {
      RankInjective(ColumnAt(k), cs[k]);
    }
    assert PushedFields(editor, updates, 1) == [] + PushedField(editor, updates, cs[0]);
    assert PushedValues(editor, updates, 1) == [] + PushedValue(editor, updates, cs[0]);
    assert PushedFields(editor, updates, 2) == PushedFields(editor, updates, 1) + PushedField(editor, updates, cs[1]);
    assert PushedValues(editor, updates, 2) == PushedValues(editor, updates, 1) + PushedValue(editor, updates, cs[1]);
    assert PushedFields(editor, updates, 3) == PushedFields(editor, updates, 2) + PushedField(editor, updates, cs[2]);
    assert PushedValues(editor, updates, 3) == PushedValues(editor, updates, 2) + PushedValue(editor, updates, cs[2]);
    assert PushedFields(editor, updates, 4) == PushedFields(editor, updates, 3) + PushedField(editor, updates, cs[3]);
    assert PushedValues(editor, updates, 4) == PushedValues(editor, updates, 3) + PushedValue(editor, updates, cs[3]);
    assert PushedFields(editor, updates, 5) == PushedFields(editor, updates, 4) + PushedField(editor, updates, cs[4]);
    assert PushedValues(editor, updates, 5) == PushedValues(editor, updates, 4) + PushedValue(editor, updates, cs[4]);
    assert PushedFields(editor, updates, 6) == PushedFields(editor, updates, 5) + PushedField(editor, updates, cs[5]);
    assert PushedValues(editor, updates, 6) == PushedValues(editor, updates, 5) + PushedValue(editor, updates, cs[5]);
    assert PushedFields(editor, updates, 7) == PushedFields(editor, updates, 6) + PushedField(editor, updates, cs[6]);
    assert PushedValues(editor, updates, 7) == PushedValues(editor, updates, 6) + PushedValue(editor, updates, cs[6]);
  }

  /** One `if (...) { fields.push(...); values.push(...); }` of the editors: the body field of
      column c is tested and, when the editor takes it, the column and its bound value are
      pushed after those of the columns tested before it. */
  method TestField(editor: Editor, updates: map<string, Value>, c: Column,
                   fields: seq<Column>, values: seq<Value>) returns (fields': seq<Column>, values': seq<Value>)
    ensures fields' == fields + PushedField(editor, updates, c)
    ensures values' == values + PushedValue(editor, updates, c)
  {
    fields', values' := fields, values;
    if Included(editor, updates, c) {
      fields', values' := fields + [c], values + [Bound(editor, updates, c)];
    } else {
      assert fields + [] == fields && values + [] == values;
    }
  }

  /** The `fields`/`values` pushes: a column is pushed exactly when the editor takes it, the
      columns come in their fixed order, and each value is the one the editor binds for its
      column. */
  method BuildUpdate(editor: Editor, updates: map<string, Value>) returns (fields: seq<Column>, values: seq<Value>)
    ensures |fields| == |values|
    ensures forall c :: c in fields <==> Included(editor, updates, c)
    ensures forall i, j :: 0 <= i < j < |fields| ==> Rank(fields[i]) < Rank(fields[j])
    ensures forall i :: 0 <= i < |fields| ==> values[i] == Bound(editor, updates, fields[i])
  {
    fields, values := [], [];
    fields, values := TestField(editor, updates, Name, fields, values);
    fields, values := TestField(editor, updates, Image, fields, values);
    fields, values := TestField(editor, updates, Address, fields, values);
    fields, values := TestField(editor, updates, Phone, fields, values);
    fields, values := TestField(editor, updates, Description, fields, values);
    fields, values := TestField(editor, updates, Price, fields, values);
    fields, values := TestField(editor, updates, OpeningTime, fields, values);
    fields, values := TestField(editor, updates, ClosingTime, fields, values);
    AllPushed(editor, updates);
    PushedSpec(editor, updates, 8);
  }

  /** The body holds no field the editor takes: the 400 "nothing to update" case. */
  predicate NothingToUpdate(editor: Editor, updates: map<string, Value>) {
    forall c :: !Included(editor, updates, c)
  }

  /** The owner's editor refuses a defined `narx` that is not a number or not above zero. */
  predicate PriceRejected(updates: map<string, Value>) {
    var narx := Lookup(updates, "narx");
    narx != Undefined && (ToNumber(narx) == NaN || AtMostZero(ToNumber(narx)))
  }

  /** A price the owner's editor lets through is bound as a positive number. */
  lemma OwnerPriceIsPositive(updates: map<string, Value>)
    requires !PriceRejected(updates) && Included(OwnerEditor, updates, Price)
    ensures var p := Bound(OwnerEditor, updates, Price);
      p == Num(PosInf) || (p.Num? && p.n.Finite? && p.n.r > 0.0)
  {
  }

  /** A price sent as decimal text is stored by the owner's editor as that number; the admin's
      editor stores the text itself. */
  lemma PriceFromText(updates: map<string, Value>, n: nat)
    requires n > 0 && Lookup(updates, "narx") == Str(Decimal(n))
    ensures !PriceRejected(updates)
    ensures Included(OwnerEditor, updates, Price) && Bound(OwnerEditor, updates, Price) == Num(Finite(n as real))
    ensures Included(AdminEditor, updates, Price) && Bound(AdminEditor, updates, Price) == Str(Decimal(n))
  {
    DecimalToNumber(n);
  }

  /** A price sent as a one-element array is read as its element: `[n]` with n above zero is
      stored by the owner's editor as the number n. */
  lemma PriceInArray(updates: map<string, Value>, n: real)
    requires n > 0.0 && Lookup(updates, "narx") == Arr([Num(Finite(n))])
    ensures !PriceRejected(updates)
    ensures Included(OwnerEditor, updates, Price) && Bound(OwnerEditor, updates, Price) == Num(Finite(n))
  {
    var v := Arr([Num(Finite(n))]);
    assert v.items[0] == Num(Finite(n));
    assert ToNumber(v) == Finite(n);
  }

  /** An empty array reads as 0 and an array of two or more elements as NaN, so the owner's
      editor refuses both. */
  lemma PriceOfOtherArrays(updates: map<string, Value>, items: seq<Value>)
    requires Lookup(updates, "narx") == Arr(items) && |items| != 1
    ensures PriceRejected(updates)
  {
  }

  /** A zero price is refused by the owner's editor and silently skipped by the admin's. */
  lemma ZeroPrice(updates: map<string, Value>)
    requires Lookup(updates, "narx") == Num(Finite(0.0))
    ensures PriceRejected(updates)
    ensures !Included(AdminEditor, updates, Price)
  {
  }

  // ---------------------------------------------------------------------------------------
  // The UPDATE statement

  function ColumnValue(s: Shop, c: Column): Value {
    match c
    case Name => s.name
    case Image => s.image
    case Address => s.address
    case Phone => s.phone
    case Description => s.description
    case Price => s.price
    case OpeningTime => s.openingTime
    case ClosingTime => s.closingTime
  }

  /** `c = ?` bound to v. */
  function SetColumn(s: Shop, c: Column, v: Value): (r: Shop)
    ensures ColumnValue(r, c) == v
    ensures forall d :: d != c ==> ColumnValue(r, d) == ColumnValue(s, d)
    ensures r.id == s.id && r.ownerId == s.ownerId && r.isActive == s.isActive
  {
    match c
    case Name => s.(name := v)
    case Image => s.(image := v)
    case Address => s.(address := v)
    case Phone => s.(phone := v)
    case Description => s.(description := v)
    case Price => s.(price := v)
    case OpeningTime => s.(openingTime := v)
    case ClosingTime => s.(closingTime := v)
  }

  /** `SET f1 = ?, f2 = ?, ...` bound to the values in the same order. */
  function SetColumns(s: Shop, fields: seq<Column>, values: seq<Value>): (r: Shop)
    requires |fields| == |values|
    ensures r.id == s.id && r.ownerId == s.ownerId && r.isActive == s.isActive
    decreases |fields|
  {
    if fields == [] then s
    else SetColumns(SetColumn(s, fields[0], values[0]), fields[1..], values[1..])
  }

  /** With distinct columns, each listed column takes its value and the others keep theirs. */
  lemma {:induction false} SetColumnsSpec(s: Shop, fields: seq<Column>, values: seq<Value>)
    requires |fields| == |values|
    requires forall i, j :: 0 <= i < j < |fields| ==> fields[i] != fields[j]
    ensures forall i :: 0 <= i < |fields| ==> ColumnValue(SetColumns(s, fields, values), fields[i]) == values[i]
    ensures forall c :: c !in fields ==> ColumnValue(SetColumns(s, fields, values), c) == ColumnValue(s, c)
    decreases |fields|
  {
    if fields != [] {
      var s1 := SetColumn(s, fields[0], values[0]);
      SetColumnsSpec(s1, fields[1..], values[1..]);
      var r := SetColumns(s, fields, values);
      assert r == SetColumns(s1, fields[1..], values[1..]);
      forall i | 0 <= i < |fields| ensures ColumnValue(r, fields[i]) == values[i] {
        if i == 0 {
          assert fields[0] !in fields[1..] by {
            forall k | 0 <= k < |fields[1..]| ensures fields[1..][k] != fields[0] {
              assert fields[1..][k] == fields[k + 1];
            }
          }
        } else {
          assert fields[1..][i - 1] == fields[i] && values[1..][i - 1] == values[i];
        }
      }
      forall c | c !in fields ensures ColumnValue(r, c) == ColumnValue(s, c) {
        assert c != fields[0];
        assert c !in fields[1..] by {
          forall k | 0 <= k < |fields[1..]| ensures fields[1..][k] != c {
            assert fields[1..][k] == fields[k + 1];
          }
        }
      }
    }
  }

  /** The definition of `UPDATE barbershops SET ... WHERE id = ?` with `bound` the SET values
      followed by the id: every row whose key the id designates gets the listed columns.  What
      the routes rely on is stated by `UpdateShopsSpec` and `UpdateOneShop`. */
  function UpdateShops(shops: seq<Shop>, fields: seq<Column>, bound: seq<Value>): (r: seq<Shop>)
    requires |bound| == |fields| + 1
    ensures |r| == |shops|
    ensures forall i :: 0 <= i < |r| ==>
      r[i] == if SqlKey(bound[|fields|]) == Some(shops[i].id)
              then SetColumns(shops[i], fields, bound[..|fields|]) else shops[i]
  {
    seq(|shops|, i requires 0 <= i < |shops| =>
      if SqlKey(bound[|fields|]) == Some(shops[i].id) then SetColumns(shops[i], fields, bound[..|fields|]) else shops[i])
  }

  /** The row after an edit: every column the editor takes holds its bound value, every other
      column and the id, owner and active flag are as before. */
  predicate Edited(before: Shop, after: Shop, editor: Editor, updates: map<string, Value>) {
    && after.id == before.id && after.ownerId == before.ownerId && after.isActive == before.isActive
    && forall c :: ColumnValue(after, c) == if Included(editor, updates, c) then Bound(editor, updates, c) else ColumnValue(before, c)
  }

  /** The rows after an edit of row k alone: row k is edited, every other row is kept. */
  predicate EditedAt(before: seq<Shop>, after: seq<Shop>, k: nat, editor: Editor, updates: map<string, Value>) {
    && |after| == |before| && k < |before|
    && Edited(before[k], after[k], editor, updates)
    && forall i :: 0 <= i < |before| && i != k ==> after[i] == before[i]
  }

  /** The UPDATE an editor runs with the lists BuildUpdate produced and the id bound last:
      with unique ids, the row the id designates is edited and every other row is kept. */
  lemma UpdateShopsSpec(shops: seq<Shop>, editor: Editor, updates: map<string, Value>,
                        fields: seq<Column>, values: seq<Value>, id: Value)
    requires |fields| == |values|
    requires forall c :: c in fields <==> Included(editor, updates, c)
    requires forall i, j :: 0 <= i < j < |fields| ==> Rank(fields[i]) < Rank(fields[j])
    requires forall i :: 0 <= i < |fields| ==> values[i] == Bound(editor, updates, fields[i])
    ensures var r := UpdateShops(shops, fields, values + [id]);
      |r| == |shops|
      && (forall i :: 0 <= i < |shops| ==> r[i].id == shops[i].id)
      && forall i :: 0 <= i < |shops| ==>
           if SqlKey(id) == Some(shops[i].id) then Edited(shops[i], r[i], editor, updates) else r[i] == shops[i]
  {
    var bound := values + [id];
    assert bound[|fields|] == id && bound[..|fields|] == values;
    forall i, j | 0 <= i < j < |fields| ensures fields[i] != fields[j] {
      RankInjective(fields[i], fields[j]);
    }
    forall k | 0 <= k < |shops| && SqlKey(id) == Some(shops[k].id)
      ensures Edited(shops[k], SetColumns(shops[k], fields, values), editor, updates)
    {
      var after := SetColumns(shops[k], fields, values);
      SetColumnsSpec(shops[k], fields, values);
      forall c ensures ColumnValue(after, c) == if Included(editor, updates, c) then Bound(editor, updates, c) else ColumnValue(shops[k], c) {
        if c in fields {
          var i :| 0 <= i < |fields| && fields[i] == c;
          assert ColumnValue(after, fields[i]) == values[i];
        }
      }
    }
  }

  /** The UPDATE bound to the numeric id of row k: with unique ids, row k is edited and every
      other row is kept. */
  lemma UpdateOneShop(shops: seq<Shop>, k: nat, editor: Editor, updates: map<string, Value>,
                      fields: seq<Column>, values: seq<Value>)
    requires UniqueKeys(shops, (s: Shop) => s.id) && k < |shops|
    requires |fields| == |values|
    requires forall c :: c in fields <==> Included(editor, updates, c)
    requires forall i, j :: 0 <= i < j < |fields| ==> Rank(fields[i]) < Rank(fields[j])
    requires forall i :: 0 <= i < |fields| ==> values[i] == Bound(editor, updates, fields[i])
    ensures var r := UpdateShops(shops, fields, values + [Num(Finite(shops[k].id as real))]);
      && EditedAt(shops, r, k, editor, updates)
      && UniqueKeys(r, (s: Shop) => s.id)
      && forall i :: 0 <= i < |shops| ==> r[i].id == shops[i].id
  {
    var id := Num(Finite(shops[k].id as real));
    UpdateShopsSpec(shops, editor, updates, fields, values, id);
    assert SqlKey(id) == Some(shops[k].id);
    forall i | 0 <= i < |shops| && i != k ensures shops[i].id != shops[k].id {
    }
  }
}
