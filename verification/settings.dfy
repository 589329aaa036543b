/**
 The settings table (`SettingsModel.fields`) and its guarded update
 `SettingsModel.set`: a value is stored only under a known name and only
 when its Python type name is the one the table declares for that name.
 */
module Settings {
  import opened Wrappers
  import opened OrderedMap

  /** The Python values a setting can be given; `Other` stands for any further type, by its name. */
  datatype PyValue =
    | PyInt(i: int)
    | PyStr(s: string)
    | PyBool(b: bool)
    | PyFloat(literal: string)
    | Other(typeName: string)

  /** `type(value).__name__`. A `bool` is named `bool`, not `int`. */
  function TypeName(v: PyValue): string {
    match v
    case PyInt(_) => "int"
    case PyStr(_) => "str"
    case PyBool(_) => "bool"
    case PyFloat(_) => "float"
    case Other(name) => name
  }

  /** One entry of the table: its declared type name and its current value. */
  datatype Field = Field(typeName: string, value: PyValue)

  type Fields = OMap<string, Field>

  /** The table as the program starts with it; every value starts out as a string. */
  const Defaults: Fields := [
    ("font size", Field("int", PyStr("14"))),
    ("font family", Field("str", PyStr(""))),
    ("theme", Field("str", PyStr("default"))),
    ("style", Field("int", PyStr("0"))),
    ("location", Field("str", PyStr(""))),
    ("history", Field("str", PyStr(""))),
    ("show_history", Field("bool", PyStr("1"))),
    ("active dicts", Field("str", PyStr(""))),
    ("dict groups", Field("str", PyStr(""))),
    ("default dict group", Field("str", PyStr(""))),
    ("language", Field("str", PyStr("Українська"))),
    ("sound variable", Field("bool", PyStr("0"))),
    ("transparency scale", Field("float", PyStr("1.0"))),
    ("tts player", Field("str", PyStr("None"))),
    ("tts voice", Field("str", PyStr("None"))),
    ("initial dir", Field("str", PyStr("None")))
  ]

  /** `set` raises `ValueError` for an unknown name or a value of the wrong type. */
  datatype SetError = WrongNameOrType(key: string)

  /** `SettingsModel.set(key, value)`: the new table, or the error it raises. */
  function Set(fields: Fields, key: string, value: PyValue): Result<Fields, SetError> {
    match Get(fields, key)
    case Some(f) =>
      if TypeName(value) == f.typeName then Success(Put(fields, key, Field(f.typeName, value)))
      else Failure(WrongNameOrType(key))
    case None => Failure(WrongNameOrType(key))
  }

  /**
   A value is stored exactly when the name is in the table and the value's
   type name is the declared one; then the name holds the value under the
   same declared type, and every other name, and the order of names, is as
   before. On failure the caller's table is left as it was.
   */
  lemma SetSpec(fields: Fields, key: string, value: PyValue)
    requires Distinct(fields)
    ensures Set(fields, key, value).Success? <==>
      HasKey(fields, key) && TypeName(value) == Get(fields, key).value.typeName
    ensures Set(fields, key, value).Failure? ==> Set(fields, key, value).error == WrongNameOrType(key)
    ensures Set(fields, key, value).Success? ==>
      var r := Set(fields, key, value).value;
      && Distinct(r)
      && Keys(r) == Keys(fields)
      && Get(r, key) == Some(Field(Get(fields, key).value.typeName, value))
      && forall k :: k != key ==> Get(r, k) == Get(fields, k)
  {
    if HasKey(fields, key) {
      PutSpec(fields, key, Field(Get(fields, key).value.typeName, value));
    }
  }

  /** Setting a value never changes any declared type, and setting it again changes nothing. */
  lemma SetTwice(fields: Fields, key: string, value: PyValue)
    requires Distinct(fields)
    requires Set(fields, key, value).Success?
    ensures forall k :: Get(Set(fields, key, value).value, k).Some? <==> Get(fields, k).Some?
    ensures forall k :: Get(fields, k).Some? ==> Get(Set(fields, key, value).value, k).value.typeName == Get(fields, k).value.typeName
    ensures Set(Set(fields, key, value).value, key, value) == Set(fields, key, value)
  {
    SetSpec(fields, key, value);
    var r := Set(fields, key, value).value;
    SetSpec(r, key, value);
    var f := Field(Get(fields, key).value.typeName, value);
    assert IndexOf(r, key) == IndexOf(fields, key);
    assert r[IndexOf(r, key) := (key, f)] == r;
  }

  /** The starting table: sixteen distinct names; a font size must be given as an `int`. */
  lemma DefaultsSpec()
    ensures |Defaults| == 16 && Distinct(Defaults)
    ensures Set(Defaults, "font size", PyStr("16")).Failure?
    ensures Set(Defaults, "font size", PyInt(16)).Success?
    ensures Set(Defaults, "font colour", PyStr("red")).Failure?
  {
    DefaultsDistinct();
    assert Get(Defaults, "font size") == Some(Field("int", PyStr("14"))) by {
      assert Defaults[0].0 == "font size";
      assert IndexOf(Defaults, "font size") == 0;
    }
    assert !HasKey(Defaults, "font colour") by {
      assert forall i :: 0 <= i < |Defaults| ==> Defaults[i].0 != "font colour";
    }
  }

  lemma DefaultsDistinct()
    ensures |Defaults| == 16 && Distinct(Defaults)
  {
    assert forall i :: 0 <= i < |Defaults| ==> |Defaults[i].0| > 0;
  }
}
