/**
 * The forecast attributes a client may ask `city_weather` for, and the
 * filter that keeps the requested names naming one of them.
 */
module Fields {
  import opened Common

  /** The four attribute columns of the `forecasts` table. */
  datatype Field = Temperature | WindSpeed | Humidity | Precipitation

  /** The column name, which is also the request parameter and the answer key. */
  function Name(f: Field): string {
    match f
    case Temperature => "temperature"
    case WindSpeed => "wind_speed"
    case Humidity => "humidity"
    case Precipitation => "precipitation"
  }

  /** The field a requested name denotes, if it is in `valid_fields`. */
  function FieldNamed(s: string): (r: Option<Field>)
    ensures r.Some? ==> Name(r.value) == s
    ensures r.None? ==> forall f: Field :: Name(f) != s
  {
    if s == "temperature" then Some(Temperature)
    else if s == "wind_speed" then Some(WindSpeed)
    else if s == "humidity" then Some(Humidity)
    else if s == "precipitation" then Some(Precipitation)
    else None
  }

  lemma FieldNamedName(f: Field)
    ensures FieldNamed(Name(f)) == Some(f)
  {
  }

  /** The fields occurring in a list. */
  function FieldSet(fields: seq<Field>): set<Field> {
    set f | f in fields
  }

  /** `[field for field in params if field in valid_fields]`, as fields. */
  function Selected(params: seq<string>): (r: seq<Field>)
    ensures |r| <= |params|
    ensures forall i | 0 <= i < |r| :: Name(r[i]) in params
  {
    if params == [] then []
    else
      var rest := Selected(params[1..]);
      match FieldNamed(params[0])
      case Some(f) => [f] + rest
      case None => rest
  }

  /** Selection keeps request order: selecting from `a + b` is selecting from `a`, then from `b`. */
  lemma {:induction false} SelectedAppend(a: seq<string>, b: seq<string>)
    ensures Selected(a + b) == Selected(a) + Selected(b)
  {
    if a == [] {
      assert a + b == b;
    } else {
      assert (a + b)[1..] == a[1..] + b;
      SelectedAppend(a[1..], b);
    }
  }

  /** A field is selected exactly when its name was requested. */
  lemma {:induction false} SelectedMembers(params: seq<string>, f: Field)
    ensures f in Selected(params) <==> Name(f) in params
  {
    if params != [] {
      SelectedMembers(params[1..], f);
      FieldNamedName(f);
      assert Name(f) in params <==> Name(f) == params[0] || Name(f) in params[1..];
    }
  }

  /**
   * The selected fields, or None where `city_weather` answers 400
   * "Invalid parameters provided" because no requested name is valid.
   */
  function SelectFields(params: seq<string>): (r: Option<seq<Field>>)
    ensures r.None? <==> forall i | 0 <= i < |params| :: FieldNamed(params[i]).None?
    ensures r.Some? ==> r.value == Selected(params) && |r.value| > 0
  {
    SelectedNonEmpty(params);
    var fields := Selected(params);
    if fields == [] then None else Some(fields)
  }

  lemma {:induction false} SelectedNonEmpty(params: seq<string>)
    ensures Selected(params) == [] <==> forall i | 0 <= i < |params| :: FieldNamed(params[i]).None?
  {
    if params != [] {
      SelectedNonEmpty(params[1..]);
      assert forall i | 1 <= i < |params| :: params[i] == params[1..][i - 1];
    }
  }
}
