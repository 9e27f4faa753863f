/** The admin form's variant list editor: add a blank row, delete a row, set one field of
    one row. Every edit stores the new list and reports that same list to the form. */
module VariantManager {
  import opened Text

  /** A row of the editor. It has no backend id. */
  datatype EditableVariant = EditableVariant(
    sizeLabel: string,
    weightGrams: int,
    price: int,
    mrp: int,
    stock: int)

  /** The list after an edit, and the list handed to `onChange`. */
  datatype Edit = Edit(stored: seq<EditableVariant>, reported: seq<EditableVariant>)

  const BlankVariant: EditableVariant := EditableVariant("", 0, 0, 0, 0)

  /** `variants.length > 0 ? variants : []`: the editor starts from the form's list. */
  function InitialRows(variants: seq<EditableVariant>): (r: seq<EditableVariant>)
    ensures r == variants
  {
    if |variants| > 0 then variants else []
  }

  /** `addVariant`: a blank row at the end. */
  function AddVariant(rows: seq<EditableVariant>): (r: Edit)
    ensures r.reported == r.stored
    ensures |r.stored| == |rows| + 1
    ensures r.stored[..|rows|] == rows && r.stored[|rows|] == BlankVariant
  {
    var updated := rows + [BlankVariant];
    assert updated[..|rows|] == rows;
    Edit(updated, updated)
  }

  /** `filter((_, i) => i !== index)` over `rows`, whose first element sits at `offset`. */
  function KeepOthers(rows: seq<EditableVariant>, index: int, offset: nat): (r: seq<EditableVariant>)
    ensures |r| <= |rows|
    decreases |rows|
  {
    if |rows| == 0 then []
    else (if offset == index then [] else [rows[0]]) + KeepOthers(rows[1..], index, offset + 1)
  }

  /** `removeVariant(index)`: an index in range removes exactly that row and keeps the
      others in order; any other index leaves the list as it was. The form is told the new
      list. */
  function RemoveVariant(rows: seq<EditableVariant>, index: int): (r: Edit)
    ensures r.reported == r.stored
    ensures 0 <= index < |rows| ==> r.stored == rows[..index] + rows[index + 1..]
    ensures 0 <= index < |rows| ==> |r.stored| == |rows| - 1
    ensures !(0 <= index < |rows|) ==> r.stored == rows
  {
    var updated := KeepOthers(rows, index, 0);
    KeepOthersSlices(rows, index, 0);
    Edit(updated, updated)
  }

  lemma {:induction false} KeepOthersSlices(rows: seq<EditableVariant>, index: int, offset: nat)
    ensures offset <= index < offset + |rows| ==>
      KeepOthers(rows, index, offset) == rows[..index - offset] + rows[index - offset + 1..]
    ensures !(offset <= index < offset + |rows|) ==> KeepOthers(rows, index, offset) == rows
    decreases |rows|
  {
    if |rows| > 0 {
      KeepOthersSlices(rows[1..], index, offset + 1);
      if offset == index {
        assert rows[..0] + rows[1..] == rows[1..];
      } else if offset < index < offset + |rows| {
        assert rows[..index - offset] == [rows[0]] + rows[1..][..index - offset - 1];
        assert rows[index - offset + 1..] == rows[1..][index - offset - 1 + 1..];
      } else {
        assert rows == [rows[0]] + rows[1..];
      }
    }
  }

  /** One field set to one value. */
  datatype FieldEdit =
    | SetLabel(text: string)
    | SetWeightGrams(n: int)
    | SetPrice(n: int)
    | SetMrp(n: int)
    | SetStock(n: int)

  /** `{ ...v, [field]: value }`: the edit's field takes the edit's value and the four
      other fields are left alone. */
  function ApplyEdit(v: EditableVariant, e: FieldEdit): (r: EditableVariant)
    ensures Read(r, EditedField(e)) == EditedValue(e)
    ensures forall f :: f != EditedField(e) ==> Read(r, f) == Read(v, f)
  {
    match e
    case SetLabel(t) => v.(sizeLabel := t)
    case SetWeightGrams(n) => v.(weightGrams := n)
    case SetPrice(n) => v.(price := n)
    case SetMrp(n) => v.(mrp := n)
    case SetStock(n) => v.(stock := n)
  }

  /** The five fields by name, for stating which one an edit touches. */
  datatype Field = LabelField | WeightField | PriceField | MrpField | StockField

  datatype FieldValue = Text(text: string) | Number(n: int)

  function Read(v: EditableVariant, f: Field): FieldValue {
    match f
    case LabelField => Text(v.sizeLabel)
    case WeightField => Number(v.weightGrams)
    case PriceField => Number(v.price)
    case MrpField => Number(v.mrp)
    case StockField => Number(v.stock)
  }

  function EditedField(e: FieldEdit): Field {
    match e
    case SetLabel(_) => LabelField
    case SetWeightGrams(_) => WeightField
    case SetPrice(_) => PriceField
    case SetMrp(_) => MrpField
    case SetStock(_) => StockField
  }

  function EditedValue(e: FieldEdit): FieldValue {
    match e
    case SetLabel(t) => Text(t)
    case SetWeightGrams(n) => Number(n)
    case SetPrice(n) => Number(n)
    case SetMrp(n) => Number(n)
    case SetStock(n) => Number(n)
  }

  /** `updateVariant(index, field, value)`. */
  function UpdateVariant(rows: seq<EditableVariant>, index: int, e: FieldEdit): (r: Edit)
    ensures r.reported == r.stored
    ensures |r.stored| == |rows|
    ensures forall j :: 0 <= j < |rows| && j != index ==> r.stored[j] == rows[j]
    ensures 0 <= index < |rows| ==> r.stored[index] == ApplyEdit(rows[index], e)
  {
    var updated := seq(|rows|, j requires 0 <= j < |rows| => if j == index then ApplyEdit(rows[j], e) else rows[j]);
    Edit(updated, updated)
  }

  /** What a numeric input stores: `parseInt(text) || 0`, so text that does not start with a
      number stores 0. */
  function NumericInput(text: string): (n: int)
    ensures ParseInt(text, Auto).None? ==> n == 0
    ensures ParseInt(text, Auto).Some? ==> n == ParseInt(text, Auto).value
  {
    ParseIntOr0(text, Auto)
  }

  /** A plain decimal number typed in is stored as its value, leading zeros and all. */
  lemma NumericInputOfDigits(text: string)
    requires |text| > 0 && AllDigits(text)
    ensures NumericInput(text) == DecimalValue(text)
  {
    ParseIntOfDigits(text, Auto);
  }

  /** Input that holds no digit at all is stored as 0. */
  lemma NumericInputNoDigits(text: string)
    requires forall k :: 0 <= k < |text| ==> !IsDigit(text[k])
    ensures NumericInput(text) == 0
  {
    var t := text[LeadingSpaces(text)..];
    var u := if |t| > 0 && (t[0] == '-' || t[0] == '+') then t[1..] else t;
    assert forall k :: 0 <= k < |u| ==> !IsDigit(u[k]);
    if |u| >= 2 && u[0] == '0' {
      assert false;
    }
    if |u| > 0 {
      assert DigitIn(u[0], 10).None?;
    }
  }
}
