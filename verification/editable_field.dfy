/** `EditableField`: a value shown as a button that turns into an input when clicked.
    All fields of the dashboard share one `editingField` key, so at most one is open. */
module EditableField {
  import opened Collections

  /** The `string | number` a field holds or saves; `NaN` is the number `Number()` returns
      for text it cannot read. */
  datatype Value = Str(s: string) | Num(n: real) | NaN

  /** The `type` prop. */
  datatype FieldType = Text | Number

  /** The keys `handleKeyDown` distinguishes. */
  datatype Key = Enter | Escape | OtherKey

  /** JavaScript `Number(v)`. Reading a numeral is left to `parse`, which answers `None`
      where `Number` answers `NaN`. */
  function ToNumber(v: Value, parse: string -> Option<real>): (r: Value)
    ensures !r.Str?
    ensures v.Num? ==> r == v
    ensures v.Str? ==> (r.NaN? <==> parse(v.s).None?)
    ensures v.Str? && parse(v.s).Some? ==> r == Num(parse(v.s).value)
  {
    match v
    case Num(_) => v
    case NaN => NaN
    case Str(s) => if parse(s).Some? then Num(parse(s).value) else NaN
  }

  /** The state one field sees: the shared `editingField` and its own `tempValue`. */
  datatype Editor = Editor(editingField: Option<string>, temp: Value)

  /** What a handler leaves behind, and the value passed to `onSave` if it was called. */
  datatype Outcome = Outcome(editor: Editor, saved: Option<Value>)

  /** `isEditing = editingField === fieldKey`. */
  predicate IsEditing(editingField: Option<string>, key: string) {
    editingField == Some(key)
  }

  /** The button's `onClick`: open this field and copy the current value into the input. */
  function Click(ed: Editor, key: string, value: Value): (r: Editor)
    ensures IsEditing(r.editingField, key) && r.temp == value
    ensures forall other :: other != key ==> !IsEditing(r.editingField, other)
  {
    Editor(Some(key), value)
  }

  /** The input's `onChange`: an input always reports text. */
  function Change(ed: Editor, text: string): (r: Editor)
    ensures r.editingField == ed.editingField && r.temp == Str(text)
  {
    ed.(temp := Str(text))
  }

  /** `handleSave` (also the input's `onBlur`). */
  function Save(ed: Editor, ty: FieldType, parse: string -> Option<real>): (r: Outcome)
    ensures r.editor.editingField.None? && r.editor.temp == ed.temp
    ensures r.saved.Some?
    ensures ty == Text ==> r.saved.value == ed.temp
    ensures ty == Number ==> r.saved.value == ToNumber(ed.temp, parse) && !r.saved.value.Str?
  {
    var v := if ty == Number then ToNumber(ed.temp, parse) else ed.temp;
    Outcome(Editor(None, ed.temp), Some(v))
  }

  /** `handleKeyDown`: Enter saves, Escape discards the edit, other keys do nothing. */
  function KeyDown(ed: Editor, k: Key, ty: FieldType, value: Value, parse: string -> Option<real>): (r: Outcome)
    ensures k == Escape ==> r == Outcome(Editor(None, value), None)
    ensures k == OtherKey ==> r == Outcome(ed, None)
  {
    match k
    case Enter => Save(ed, ty, parse)
    case Escape => Outcome(Editor(None, value), None)
    case OtherKey => Outcome(ed, None)
  }

  /** Enter is exactly a save. */
  lemma EnterIsSave(ed: Editor, ty: FieldType, value: Value, parse: string -> Option<real>)
    ensures KeyDown(ed, Enter, ty, value, parse) == Save(ed, ty, parse)
    ensures KeyDown(ed, Enter, ty, value, parse).saved.Some?
  {
  }

  /** Only Enter reaches `onSave`; every key but "other" closes the field. */
  lemma OnlyEnterSaves(ed: Editor, k: Key, ty: FieldType, value: Value, parse: string -> Option<real>)
    ensures KeyDown(ed, k, ty, value, parse).saved.Some? <==> k == Enter
    ensures KeyDown(ed, k, ty, value, parse).editor.editingField.None? <==> k != OtherKey || ed.editingField.None?
  {
  }

  /** `Number(Number(x)) == Number(x)`: saving a number field and then converting again,
      as the team goal does, changes nothing. */
  lemma ToNumberIdempotent(v: Value, parse: string -> Option<real>)
    ensures ToNumber(ToNumber(v, parse), parse) == ToNumber(v, parse)
  {
  }

  /** Since the editing key is one value, two different fields are never open together. */
  lemma AtMostOneEditing(editingField: Option<string>, k1: string, k2: string)
    requires IsEditing(editingField, k1) && IsEditing(editingField, k2)
    ensures k1 == k2
  {
  }

  /** A whole edit: click, type `text`, press a key. Enter hands `onSave` the typed text,
      read as a number in a number field; Escape hands it nothing and puts the old value
      back into the input. Either way the field ends up closed. */
  lemma TypedEdit(ed: Editor, key: string, value: Value, text: string, k: Key, ty: FieldType,
                  parse: string -> Option<real>)
    requires k != OtherKey
    ensures var r := KeyDown(Change(Click(ed, key, value), text), k, ty, value, parse);
      && r.editor.editingField.None?
      && (k == Enter && ty == Text ==> r.saved == Some(Str(text)))
      && (k == Enter && ty == Number ==> r.saved == Some(ToNumber(Str(text), parse)))
      && (k == Escape ==> r.saved.None? && r.editor.temp == value)
  {
  }

  /** The button text: a number in a number field shows as `"<value> Kč"`, anything else
      as itself. Writing a number as text is left to `show`. */
  function DisplayText(ty: FieldType, value: Value, show: real -> string): (r: string)
    ensures ty == Number && value.Num? ==> r == show(value.n) + " Kč"
    ensures ty == Number && value.NaN? ==> r == "NaN Kč"
    ensures value.Str? ==> r == value.s
    ensures ty == Text && value.Num? ==> r == show(value.n)
  {
    match value
    case Str(s) => s
    case Num(n) => if ty == Number then show(n) + " Kč" else show(n)
    case NaN => if ty == Number then "NaN Kč" else "NaN"
  }
}
