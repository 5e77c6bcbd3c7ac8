/** The state filter a client asks for when listing bookings, and the gateway's
    case-insensitive parser for it (BookingState.stringToState). */
module BookingStates {
  import opened Common
  import opened JavaText

  datatype BookingState = ALL | CURRENT | PAST | FUTURE | WAITING | REJECTED

  /** Enum.name(): the constant's identifier. */
  function Name(s: BookingState): (r: string)
    ensures |r| > 0 && forall i :: 0 <= i < |r| ==> IsAsciiCapital(r[i])
  {
    match s
    case ALL => "ALL"
    case CURRENT => "CURRENT"
    case PAST => "PAST"
    case FUTURE => "FUTURE"
    case WAITING => "WAITING"
    case REJECTED => "REJECTED"
  }

  /** BookingState.values(), in declaration order. */
  const Values: seq<BookingState> := [ALL, CURRENT, PAST, FUTURE, WAITING, REJECTED]

  lemma ValuesComplete(s: BookingState)
    ensures s in Values
  {
  }

  /** Different constants have different names. */
  lemma NamesDistinct(a: BookingState, b: BookingState)
    requires a != b
    ensures Name(a) != Name(b)
  {
    // the names already differ in their first letter
    assert Name(a)[0] != Name(b)[0];
  }

  /** The loop of stringToState: the first constant of `values` named `name`. */
  function FindByName(values: seq<BookingState>, name: string): (r: Option<BookingState>)
    ensures r.Some? ==> r.value in values && Name(r.value) == name
    ensures r.None? ==> forall v :: v in values ==> Name(v) != name
  {
    if values == [] then None
    else if Name(values[0]) == name then Some(values[0])
    else FindByName(values[1..], name)
  }

  /** stringToState: the constant whose name is the upper-cased input, if any. */
  function StringToState(s: string): (r: Option<BookingState>)
    ensures r.Some? <==> exists st :: Name(st) == Upper(s)
    ensures r.Some? ==> Name(r.value) == Upper(s)
  {
    var r := FindByName(Values, Upper(s));
    assert forall st :: st in Values by { forall st ensures st in Values { ValuesComplete(st); } }
    r
  }

  /** The parser accepts exactly the inputs whose upper-case form is a state's
      name, and it then returns that state and no other. */
  lemma {:induction false} StringToStateExact(s: string, st: BookingState)
    ensures StringToState(s) == Some(st) <==> Upper(s) == Name(st)
  {
    var r := StringToState(s);
    if Upper(s) == Name(st) {
      assert r.Some?;
      if r.value != st {
        NamesDistinct(r.value, st);
      }
    }
  }

  /** Round trip: parsing a constant's name gives the constant back. */
  lemma {:induction false} ParseName(st: BookingState)
    ensures StringToState(Name(st)) == Some(st)
  {
    UpperOfCapitals(Name(st));
    StringToStateExact(Name(st), st);
  }

  /** Case does not matter: the lower-case spelling parses to the same state. */
  lemma {:induction false} ParseLowerName(st: BookingState)
    ensures StringToState(Lower(Name(st))) == Some(st)
  {
    UpperOfLowerCapitals(Name(st));
    StringToStateExact(Lower(Name(st)), st);
  }
}
