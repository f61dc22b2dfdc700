/** Objects as Redis hashes: how RedisHSetObj writes a struct's fields as text
    and RedisHGetObj reads them back. */
module HashCodec {
  import opened Wrappers
  import opened Decimal
  import RedisHash

  /** A field's value: text, an integer of 64 bits, a boolean, or another kind
      (a float, a slice, ...) of which only the printed text matters. */
  datatype Scalar = Str(s: string) | Int(i: int) | Bool(b: bool) | Other(printed: string)

  /** A struct field's content: a plain value, a pointer to a type whose zero
      value is `zero`, or gorm's DeletedAt. */
  datatype Content =
    | Plain(v: Scalar)
    | Pointer(zero: Scalar, target: Option<Scalar>)
    | DeletedAt(at: Option<int>)

  datatype Field = Field(name: string, content: Content)

  function Printed(v: Scalar): string {
    match v
    case Str(s) => s
    case Int(i) => IntToString(i)
    case Bool(b) => if b then "true" else "false"
    case Other(printed) => printed
  }

  /** The text a field is stored as; None for DeletedAt, which is skipped. */
  function EncodeContent(c: Content): Option<string> {
    match c
    case Plain(v) => Some(Printed(v))
    case Pointer(_, target) => Some(if target.None? then "" else Printed(target.value))
    case DeletedAt(_) => None
  }

  /** The hash fields an object is written as. */
  function Encode(fields: seq<Field>): RedisHash.Hash {
    if fields == [] then map[]
    else
      var last := fields[|fields| - 1];
      var rest := Encode(fields[..|fields| - 1]);
      match EncodeContent(last.content)
      case Some(text) => rest[last.name := text]
      case None => rest
  }

  /** strconv.ParseBool. */
  function ParseBool(s: string): Option<bool> {
    if s in ["1", "t", "T", "TRUE", "true", "True"] then Some(true)
    else if s in ["0", "f", "F", "FALSE", "false", "False"] then Some(false)
    else None
  }

  /** Reading text into a value of the given kind; None is an error. */
  function ParseAs(kind: Scalar, text: string): Option<Scalar> {
    match kind
    case Str(_) => Some(Str(text))
    case Int(_) => (match ParseInt(text) case Some(i) => Some(Int(i)) case None => None)
    case Bool(_) => (match ParseBool(text) case Some(b) => Some(Bool(b)) case None => None)
    case Other(_) => None
  }

  /** Reading text into a field: an empty text leaves a pointer alone. */
  function DecodeContent(c: Content, text: string, parseTime: string -> Option<int>): Option<Content> {
    match c
    case Plain(v) => (match ParseAs(v, text) case Some(w) => Some(Plain(w)) case None => None)
    case Pointer(zero, _) =>
      if text == "" then Some(c)
      else (match ParseAs(zero, text) case Some(w) => Some(Pointer(zero, Some(w))) case None => None)
    case DeletedAt(_) =>
      if text == "" then Some(c)
      else (match parseTime(text) case Some(t) => Some(DeletedAt(Some(t))) case None => None)
  }

  /** Reading one field from the hash. */
  function DecodeField(h: RedisHash.Hash, f: Field, parseTime: string -> Option<int>): Option<Field> {
    if f.name !in h then Some(f)
    else match DecodeContent(f.content, h[f.name], parseTime)
      case Some(c) => Some(Field(f.name, c))
      case None => None
  }

  /** A field whose text could not be read: a nil pointer has been set to a new
      zero value by then. */
  function HalfWritten(f: Field): Field {
    match f.content
    case Pointer(zero, None) => Field(f.name, Pointer(zero, Some(zero)))
    case _ => f
  }

  datatype ReadError = NotFound | BadField(name: string)

  /** The object read into, and what went wrong. */
  datatype Reading = Reading(fields: seq<Field>, error: Option<ReadError>)

  /** Reading the fields in order, stopping at the first that fails: those before
      it are written, those after it are as they were. */
  function DecodeFields(h: RedisHash.Hash, fields: seq<Field>, parseTime: string -> Option<int>): Reading {
    if fields == [] then Reading([], None)
    else
      var done := DecodeFields(h, fields[..|fields| - 1], parseTime);
      var last := fields[|fields| - 1];
      if done.error.Some? then Reading(done.fields + [last], done.error)
      else match DecodeField(h, last, parseTime)
        case Some(f) => Reading(done.fields + [f], None)
        case None => Reading(done.fields + [HalfWritten(last)], Some(BadField(last.name)))
  }

  function Decode(h: RedisHash.Hash, fields: seq<Field>, parseTime: string -> Option<int>): Reading {
    if h == map[] then Reading(fields, Some(NotFound)) else DecodeFields(h, fields, parseTime)
  }

  // ---------------------------------------------------------------------
  // Round trips
  // ---------------------------------------------------------------------

  ghost predicate DistinctNames(fields: seq<Field>) {
    forall j, k :: 0 <= j < k < |fields| ==> fields[j].name != fields[k].name
  }

  predicate SameKind(a: Scalar, b: Scalar) {
    (a.Str? && b.Str?) || (a.Int? && b.Int?) || (a.Bool? && b.Bool?) || (a.Other? && b.Other?)
  }

  predicate Readable(v: Scalar) { !v.Other? && (v.Int? ==> IsInt64(v.i)) }

  /** A field of a kind the decoder supports, holding a value of its kind. */
  predicate Supported(c: Content) {
    match c
    case Plain(v) => Readable(v)
    case Pointer(zero, target) =>
      Readable(zero) && (target.Some? ==> SameKind(zero, target.value) && Readable(target.value))
    case DeletedAt(_) => true
  }

  predicate SameType(c: Content, d: Content) {
    match c
    case Plain(v) => d.Plain? && SameKind(v, d.v)
    case Pointer(zero, _) => d.Pointer? && zero == d.zero
    case DeletedAt(_) => d.DeletedAt?
  }

  /** What reading an object over another one gives: everything but nil
      pointers, pointers to the empty string and DeletedAt, which stay as they
      were. */
  function Overlaid(c: Content, onto: Content): Content {
    match c
    case Plain(_) => c
    case Pointer(_, None) => onto
    case Pointer(_, Some(v)) => if v == Str("") then onto else c
    case DeletedAt(_) => onto
  }

  lemma {:induction false} PrintedReadsBack(kind: Scalar, v: Scalar)
    requires SameKind(kind, v) && Readable(v)
    ensures ParseAs(kind, Printed(v)) == Some(v)
    ensures Printed(v) == "" <==> v == Str("")
  {
    match v {
      case Int(i) => PrintParse(i);
      case Bool(b) =>
        assert "true" == ["1", "t", "T", "TRUE", "true", "True"][4];
        assert "false" == ["0", "f", "F", "FALSE", "false", "False"][4];
        FalseIsNotTrue();
      case _ =>
    }
  }

  lemma {:induction false} FalseIsNotTrue()
    ensures "false" !in ["1", "t", "T", "TRUE", "true", "True"]
  {
  }

  lemma {:induction false} ContentRoundTrip(c: Content, onto: Content, parseTime: string -> Option<int>)
    requires Supported(c) && SameType(c, onto) && !c.DeletedAt?
    ensures EncodeContent(c).Some?
    ensures DecodeContent(onto, EncodeContent(c).value, parseTime) == Some(Overlaid(c, onto))
  {
    hide ParseAs, Printed;
    match c {
      case Plain(v) => PrintedReadsBack(onto.v, v);
      case Pointer(zero, target) => if target.Some? { PrintedReadsBack(zero, target.value); }
      case DeletedAt(_) =>
    }
  }

  /** The text is the value's: a string itself, an integer in decimal, a boolean
      as "true" or "false". */
  ghost predicate TextOf(text: string, v: Scalar) {
    match v
    case Str(s) => text == s
    case Int(i) => text == IntToString(i)
    case Bool(b) => text == if b then "true" else "false"
    case Other(printed) => text == printed
  }

  /** The hash holds each field's text under its name, the empty text for a nil
      pointer, and nothing for DeletedAt. */
  lemma {:induction false} EncodeHolds(fields: seq<Field>, k: nat)
    requires DistinctNames(fields) && k < |fields|
    ensures fields[k].name in Encode(fields) <==> !fields[k].content.DeletedAt?
    ensures !fields[k].content.DeletedAt? ==>
              Encode(fields)[fields[k].name] == EncodeContent(fields[k].content).value
    ensures match fields[k].content
            case Plain(v) => TextOf(Encode(fields)[fields[k].name], v)
            case Pointer(_, None) => Encode(fields)[fields[k].name] == ""
            case Pointer(_, Some(v)) => TextOf(Encode(fields)[fields[k].name], v)
            case DeletedAt(_) => true
  {
    hide IntToString;
    var init := fields[..|fields| - 1];
    if k < |init| {
      EncodeHolds(init, k);
    } else {
      EncodeOnlyNames(init, fields[k].name);
    }
  }

  lemma {:induction false} EncodeOnlyNames(fields: seq<Field>, name: string)
    requires forall k :: 0 <= k < |fields| ==> fields[k].name != name
    ensures name !in Encode(fields)
  {
    if fields != [] { EncodeOnlyNames(fields[..|fields| - 1], name); }
  }

  ghost predicate SameShape(fields: seq<Field>, onto: seq<Field>) {
    |fields| == |onto| && forall k :: 0 <= k < |fields| ==>
      fields[k].name == onto[k].name && SameType(fields[k].content, onto[k].content)
  }

  function OverlaidAll(fields: seq<Field>, onto: seq<Field>): (r: seq<Field>)
    requires |fields| == |onto|
    ensures |r| == |fields|
    ensures forall k :: 0 <= k < |r| ==> r[k] == Field(fields[k].name, Overlaid(fields[k].content, onto[k].content))
  {
    if fields == [] then []
    else [Field(fields[0].name, Overlaid(fields[0].content, onto[0].content))] + OverlaidAll(fields[1..], onto[1..])
  }

  lemma {:induction false} DecodeFieldsAll(
    h: RedisHash.Hash, onto: seq<Field>, result: seq<Field>, parseTime: string -> Option<int>)
    requires |result| == |onto|
    requires forall k :: 0 <= k < |onto| ==> DecodeField(h, onto[k], parseTime) == Some(result[k])
    ensures DecodeFields(h, onto, parseTime) == Reading(result, None)
  {
    hide DecodeField;
    if onto != [] {
      var n := |onto| - 1;
      DecodeFieldsAll(h, onto[..n], result[..n], parseTime);
      assert DecodeField(h, onto[n], parseTime) == Some(result[n]);
      assert result == result[..n] + [result[n]];
    }
  }

  /** Reading back an object written over any older hash, into any object of
      the same shape: every field comes back, except that nil pointers, pointers
      to the empty string and DeletedAt leave the object read into as it was. */
  lemma {:induction false} RoundTrip(
    older: RedisHash.Hash, fields: seq<Field>, onto: seq<Field>, parseTime: string -> Option<int>)
    requires DistinctNames(fields) && SameShape(fields, onto)
    requires forall k :: 0 <= k < |fields| ==> Supported(fields[k].content)
    requires forall k :: 0 <= k < |fields| && fields[k].content.DeletedAt? ==> fields[k].name !in older
    requires older + Encode(fields) != map[]
    ensures Decode(older + Encode(fields), onto, parseTime) == Reading(OverlaidAll(fields, onto), None)
  {
    hide Encode, DecodeContent, EncodeContent, Overlaid, Supported, SameType;
    var h := older + Encode(fields);
    var result := OverlaidAll(fields, onto);
    forall k | 0 <= k < |onto| ensures DecodeField(h, onto[k], parseTime) == Some(result[k]) {
      EncodeHolds(fields, k);
      if !fields[k].content.DeletedAt? {
        ContentRoundTrip(fields[k].content, onto[k].content, parseTime);
      } else {
        SkippedField(fields[k].content, onto[k].content);
      }
    }
    DecodeFieldsAll(h, onto, result, parseTime);
  }

  lemma {:induction false} SkippedField(c: Content, onto: Content)
    requires c.DeletedAt?
    ensures Overlaid(c, onto) == onto
  {
  }

  /** The values a fresh object can be rebuilt from. */
  predicate Survives(c: Content) {
    match c
    case Plain(_) => true
    case Pointer(_, target) => target != Some(Str(""))
    case DeletedAt(at) => at == None
  }

  /** A field of an object nothing was read into: no pointer set, no DeletedAt;
      what plain values it holds does not matter. */
  predicate Unset(c: Content) {
    match c
    case Plain(_) => true
    case Pointer(_, target) => target == None
    case DeletedAt(at) => at == None
  }

  lemma {:induction false} OverlaidUnset(c: Content, onto: Content)
    requires Supported(c) && SameType(c, onto) && Unset(onto)
    ensures Overlaid(c, onto) == c <==> Survives(c)
  {
  }

  /** Into an unset object the round trip is exact, every string, every 64-bit
      integer, every boolean and every pointer included, unless a pointer to the
      empty string, which comes back nil, or a set DeletedAt is among the
      fields. */
  lemma {:induction false} FreshRoundTrip(fields: seq<Field>, onto: seq<Field>, parseTime: string -> Option<int>)
    requires DistinctNames(fields) && Encode(fields) != map[] && SameShape(fields, onto)
    requires forall k :: 0 <= k < |fields| ==> Supported(fields[k].content) && Unset(onto[k].content)
    ensures Decode(Encode(fields), onto, parseTime) == Reading(fields, None) <==>
              forall k :: 0 <= k < |fields| ==> Survives(fields[k].content)
  {
    hide Encode, Decode, Overlaid, Survives, Unset, Supported, SameType;
    forall k | 0 <= k < |fields|
      ensures Overlaid(fields[k].content, onto[k].content) == fields[k].content <==> Survives(fields[k].content)
    {
      OverlaidUnset(fields[k].content, onto[k].content);
    }
    assert map[] + Encode(fields) == Encode(fields);
    RoundTrip(map[], fields, onto, parseTime);
    var result := OverlaidAll(fields, onto);
    if result == fields {
      forall k | 0 <= k < |fields| ensures Survives(fields[k].content) {
        assert result[k] == fields[k];
      }
    }
  }

  /** The field's text is not one its kind can be read from. */
  ghost predicate Unreadable(h: RedisHash.Hash, f: Field, parseTime: string -> Option<int>) {
    f.name in h &&
    var text := h[f.name];
    match f.content
    case Plain(v) => BadText(v, text)
    case Pointer(zero, _) => text != "" && BadText(zero, text)
    case DeletedAt(_) => text != "" && parseTime(text) == None
  }

  ghost predicate BadText(kind: Scalar, text: string) {
    || (kind.Int? && ParseInt(text) == None)
    || (kind.Bool? && text !in ["1", "t", "T", "TRUE", "true", "True", "0", "f", "F", "FALSE", "false", "False"])
    || kind.Other?
  }

  lemma {:induction false} BoolTexts(text: string)
    ensures var yes := ["1", "t", "T", "TRUE", "true", "True"];
            var no := ["0", "f", "F", "FALSE", "false", "False"];
            && (ParseBool(text) == None <==> text !in yes + no)
            && (ParseBool(text) == Some(true) <==> text in yes)
            && ["1", "t", "T", "TRUE", "true", "True", "0", "f", "F", "FALSE", "false", "False"] == yes + no
  {
  }

  lemma {:induction false} UnreadableExact(h: RedisHash.Hash, f: Field, parseTime: string -> Option<int>)
    ensures DecodeField(h, f, parseTime) == None <==> Unreadable(h, f, parseTime)
    ensures f.name !in h ==> DecodeField(h, f, parseTime) == Some(f)
  {
    if f.name in h { BoolTexts(h[f.name]); }
    hide ParseInt, ParseBool;
  }

  ghost predicate AllReadable(h: RedisHash.Hash, fields: seq<Field>, parseTime: string -> Option<int>) {
    forall k :: 0 <= k < |fields| ==> !Unreadable(h, fields[k], parseTime)
  }

  ghost predicate FirstUnreadable(
    h: RedisHash.Hash, fields: seq<Field>, k: nat, parseTime: string -> Option<int>)
  {
    k < |fields| && Unreadable(h, fields[k], parseTime) && AllReadable(h, fields[..k], parseTime)
  }

  /** An object whose field `k` could not be read: the fields before it are read, a
      nil pointer there is a new zero value, and the rest is as it was. */
  ghost predicate StoppedAt(
    h: RedisHash.Hash, fields: seq<Field>, r: Reading, k: nat, parseTime: string -> Option<int>)
  {
    && k < |fields| == |r.fields| && r.error == Some(BadField(fields[k].name)) && r.fields[k + 1..] == fields[k + 1..]
    && (forall j :: 0 <= j < k ==> Some(r.fields[j]) == DecodeField(h, fields[j], parseTime))
    && match fields[k].content
       case Pointer(zero, None) => r.fields[k] == Field(fields[k].name, Pointer(zero, Some(zero)))
       case _ => r.fields[k] == fields[k]
  }

  /** An empty hash is not found and touches nothing; otherwise every field is read
      when all can be, and reading stops at the first that cannot be. */
  lemma {:induction false} ReadObjectExact(h: RedisHash.Hash, fields: seq<Field>, parseTime: string -> Option<int>)
    ensures var r := Decode(h, fields, parseTime);
            if h == map[] then r == Reading(fields, Some(NotFound))
            else if AllReadable(h, fields, parseTime) then
              r.error == None && |r.fields| == |fields|
              && forall j :: 0 <= j < |fields| ==> Some(r.fields[j]) == DecodeField(h, fields[j], parseTime)
            else exists k :: FirstUnreadable(h, fields, k, parseTime) && StoppedAt(h, fields, r, k, parseTime)
  {
    hide Unreadable, DecodeField, StoppedAt, HalfWritten, DecodeFields, AllReadable;
    if h != map[] {
      if AllReadable(h, fields, parseTime) {
        ReadAll(h, fields, parseTime);
      } else {
        var k := FindUnreadable(h, fields, parseTime);
        ReadToUnreadable(h, fields, k, parseTime);
      }
    }
  }

  lemma {:induction false} FindUnreadable(
    h: RedisHash.Hash, fields: seq<Field>, parseTime: string -> Option<int>) returns (k: nat)
    requires !AllReadable(h, fields, parseTime)
    ensures FirstUnreadable(h, fields, k, parseTime)
  {
    hide Unreadable;
    var n := |fields| - 1;
    if AllReadable(h, fields[..n], parseTime) {
      k := n;
    } else {
      k := FindUnreadable(h, fields[..n], parseTime);
      assert fields[..n][..k] == fields[..k];
    }
  }

  lemma {:induction false} ReadAll(h: RedisHash.Hash, fields: seq<Field>, parseTime: string -> Option<int>)
    requires AllReadable(h, fields, parseTime)
    ensures var r := DecodeFields(h, fields, parseTime);
            && r.error == None && |r.fields| == |fields|
            && forall j :: 0 <= j < |fields| ==> Some(r.fields[j]) == DecodeField(h, fields[j], parseTime)
  {
    if fields != [] {
      var n := |fields| - 1;
      UnreadableExact(h, fields[n], parseTime);
      hide Unreadable, DecodeField;
      assert AllReadable(h, fields[..n], parseTime);
      ReadAll(h, fields[..n], parseTime);
    }
  }

  lemma {:induction false} ReadToUnreadable(
    h: RedisHash.Hash, fields: seq<Field>, k: nat, parseTime: string -> Option<int>)
    requires FirstUnreadable(h, fields, k, parseTime)
    ensures StoppedAt(h, fields, DecodeFields(h, fields, parseTime), k, parseTime)
  {
    UnreadableExact(h, fields[k], parseTime);
    hide Unreadable, DecodeField, AllReadable;
    ReadAll(h, fields[..k], parseTime);
    assert fields[..k + 1][..k] == fields[..k];
    ErrorStays(h, fields, k + 1, parseTime);
  }

  /** A field of an unsupported kind can be written but never read back. */
  lemma {:induction false} UnsupportedKindFails(
    fields: seq<Field>, h: RedisHash.Hash, k: nat, parseTime: string -> Option<int>)
    requires k < |fields| && fields[k].name in h && fields[k].content.Plain? && fields[k].content.v.Other?
    ensures Decode(h, fields, parseTime).error.Some?
  {
    if k < |fields| - 1 { UnsupportedKindFails(fields[..|fields| - 1], h, k, parseTime); }
  }

  // ---------------------------------------------------------------------
  // The loops
  // ---------------------------------------------------------------------

  /** The field loop of RedisHSetObj. */
  method BuildData(fields: array<Field>) returns (data: RedisHash.Hash)
    ensures data == Encode(fields[..])
  {
    data := map[];
    for i := 0 to fields.Length
      invariant data == Encode(fields[..i])
    {
      var field := fields[i];
      assert fields[..i + 1] == fields[..i] + [field];
      match field.content {
        case DeletedAt(_) =>
          continue;
        case Pointer(_, target) =>
          if target.None? {
            data := data[field.name := ""];
            continue;
          }
          data := data[field.name := Printed(target.value)];
        case Plain(v) =>
          data := data[field.name := Printed(v)];
      }
    }
    assert fields[..fields.Length] == fields[..];
  }

  /** After an error the rest of the object is left alone. */
  lemma {:induction false} ErrorStays(h: RedisHash.Hash, fields: seq<Field>, i: nat, parseTime: string -> Option<int>)
    requires i <= |fields| && DecodeFields(h, fields[..i], parseTime).error.Some?
    ensures var prefix := DecodeFields(h, fields[..i], parseTime);
            DecodeFields(h, fields, parseTime) == Reading(prefix.fields + fields[i..], prefix.error)
    decreases |fields| - i
  {
    hide DecodeField;
    if i < |fields| {
      assert fields[..i + 1][..i] == fields[..i];
      ErrorStays(h, fields, i + 1, parseTime);
      assert [fields[i]] + fields[i + 1..] == fields[i..];
    } else {
      assert fields[..i] == fields && fields[i..] == [];
    }
  }

  /** The object `now` after the first `i` fields of `was` were read. */
  ghost predicate ReadUpTo(
    h: RedisHash.Hash, was: seq<Field>, now: seq<Field>, i: nat, parseTime: string -> Option<int>)
  {
    && i <= |was| == |now| && now[i..] == was[i..]
    && DecodeFields(h, was[..i], parseTime) == Reading(now[..i], None)
  }

  lemma {:induction false} ReadOn(
    h: RedisHash.Hash, was: seq<Field>, now: seq<Field>, i: nat, f: Field, parseTime: string -> Option<int>)
    requires ReadUpTo(h, was, now, i, parseTime) && i < |was| && DecodeField(h, was[i], parseTime) == Some(f)
    ensures ReadUpTo(h, was, now[i := f], i + 1, parseTime)
  {
    hide DecodeField;
    var next := now[i := f];
    assert was[..i + 1][..i] == was[..i];
    assert next[..i + 1] == now[..i] + [f];
    assert next[i + 1..] == now[i..][1..] == was[i..][1..] == was[i + 1..];
  }

  lemma {:induction false} ReadFails(
    h: RedisHash.Hash, was: seq<Field>, now: seq<Field>, i: nat, parseTime: string -> Option<int>)
    requires ReadUpTo(h, was, now, i, parseTime) && i < |was| && DecodeField(h, was[i], parseTime) == None
    ensures DecodeFields(h, was, parseTime) == Reading(now[i := HalfWritten(was[i])], Some(BadField(was[i].name)))
  {
    hide DecodeField, HalfWritten;
    assert was[..i + 1][..i] == was[..i];
    ErrorStays(h, was, i + 1, parseTime);
    assert now[i + 1..] == now[i..][1..] == was[i..][1..] == was[i + 1..];
    assert now[i := HalfWritten(was[i])] == now[..i] + [HalfWritten(was[i])] + now[i + 1..];
  }

  /** RedisHGetObj, filling the object field by field. */
  method ReadObject(h: RedisHash.Hash, obj: array<Field>, parseTime: string -> Option<int>)
    returns (error: Option<ReadError>)
    modifies obj
    ensures Reading(obj[..], error) == Decode(h, old(obj[..]), parseTime)
  {
    if |h| == 0 {
      return Some(NotFound);
    }
    ghost var was := obj[..];
    assert ReadUpTo(h, was, was, 0, parseTime);
    for i := 0 to obj.Length
      invariant ReadUpTo(h, was, obj[..], i, parseTime)
    {
      hide DecodeField, HalfWritten, DecodeFields;
      ghost var now := obj[..];
      assert obj[i] == now[i..][0] == was[i..][0] == was[i];
      var field := DecodeField(h, obj[i], parseTime);
      if field.None? {
        ReadFails(h, was, now, i, parseTime);
        var name := obj[i].name;
        obj[i] := HalfWritten(obj[i]);
        assert obj[..] == now[i := HalfWritten(was[i])];
        return Some(BadField(name));
      }
      ReadOn(h, was, now, i, field.value, parseTime);
      obj[i] := field.value;
      assert obj[..] == now[i := field.value];
    }
    assert was[..obj.Length] == was && obj[..][..obj.Length] == obj[..];
    return None;
  }
}
