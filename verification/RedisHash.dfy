/** A cached object kept as a Redis hash: increments that touch only complete
    hashes, and rewrites that keep the incremented fields. */
module RedisHash {
  import opened Wrappers
  import opened Decimal

  /** A hash; one with no fields does not exist. */
  type Hash = map<string, string>

  /** Populated from an object: the Id is there and not zero. */
  predicate Complete(h: Hash) { "Id" in h && h["Id"] != "" && h["Id"] != "0" }

  /** HINCRBY: a missing field counts as 0; None when the stored text is not an
      integer or the sum leaves the signed 64-bit range. */
  function HIncrBy(h: Hash, field: string, delta: int): Option<Hash> {
    match if field in h then CanonicalInt(h[field]) else Some(0)
    case None => None
    case Some(v) => if IsInt64(v + delta) then Some(h[field := IntToString(v + delta)]) else None
  }

  function Kept(h: Hash, preserve: set<string>): Hash {
    if Complete(h) then map g | g in preserve && g in h :: h[g] else map[]
  }

  /** The script of RedisHSetObjPreservingFields. */
  function Rewritten(h: Hash, data: Hash, preserve: set<string>): Hash {
    h + data + Kept(h, preserve)
  }

  datatype Op =
    | IncrIfComplete(field: string, delta: int)        // RedisHIncrByIfComplete
    | Rewrite(data: Hash, preserve: set<string>)       // RedisHSetObjPreservingFields
    | Overwrite(data: Hash)                            // RedisHSetObj
    | SetField(field: string, text: string)            // RedisHSetField
    | SetNew(field: string, text: string)              // RedisHSetNXField
    | PlainIncr(field: string, delta: int)             // RedisHIncrBy
    | Drop                                             // RedisDelKey, or expiry

  /** What RedisHIncrByIfComplete answers; None for a Redis error. */
  function IncrReply(h: Hash, field: string, delta: int): Option<bool> {
    if !Complete(h) then Some(false)
    else if HIncrBy(h, field, delta).Some? then Some(true) else None
  }

  function Step(h: Hash, op: Op): Hash {
    match op
    case IncrIfComplete(field, delta) =>
      if IncrReply(h, field, delta) == Some(true) then HIncrBy(h, field, delta).value else h
    case Rewrite(data, preserve) => Rewritten(h, data, preserve)
    case Overwrite(data) => h + data
    case SetField(field, text) => h[field := text]
    case SetNew(field, text) => if field in h then h else h[field := text]
    case PlainIncr(field, delta) => (match HIncrBy(h, field, delta) case Some(t) => t case None => h)
    case Drop => map[]
  }

  function Run(h: Hash, ops: seq<Op>): Hash
    decreases |ops|
  {
    if ops == [] then h else Run(Step(h, ops[0]), ops[1..])
  }

  // ---------------------------------------------------------------------
  // Conservation while the hash stays complete
  // ---------------------------------------------------------------------

  predicate StaysComplete(h: Hash, ops: seq<Op>)
    decreases |ops|
  {
    Complete(h) && (ops == [] || StaysComplete(Step(h, ops[0]), ops[1..]))
  }

  /** The operations the field's users confine themselves to: conditional
      increments, rewrites that preserve it, writes to other fields. */
  predicate Respects(op: Op, f: string) {
    match op
    case Rewrite(data, preserve) => f in preserve
    case Overwrite(data) => f !in data
    case SetField(field, text) => field != f
    case PlainIncr(field, delta) => field != f
    case _ => true
  }

  function ValueOf(h: Hash, f: string): Option<int> {
    if f in h then CanonicalInt(h[f]) else None
  }

  /** What one operation adds to the field: the delta of an increment that
      answers true. */
  function Credit(h: Hash, op: Op, f: string): int {
    if op.IncrIfComplete? && op.field == f && IncrReply(h, f, op.delta) == Some(true) then op.delta else 0
  }

  function Credits(h: Hash, ops: seq<Op>, f: string): int
    decreases |ops|
  {
    if ops == [] then 0 else Credit(h, ops[0], f) + Credits(Step(h, ops[0]), ops[1..], f)
  }

  /** The field is the text of a 64-bit integer, or missing, which counts as 0. */
  ghost predicate HoldsInt(h: Hash, field: string, v: int) {
    if field in h then IsInt64(v) && h[field] == IntToString(v) else v == 0
  }

  /** An increment works exactly on a field that holds an integer, when the sum
      fits 64 bits, and stores the sum. */
  lemma {:induction false} IncrExact(h: Hash, field: string, delta: int)
    ensures HIncrBy(h, field, delta).Some? <==> exists v :: HoldsInt(h, field, v) && IsInt64(v + delta)
    ensures forall v :: HoldsInt(h, field, v) ==>
              HIncrBy(h, field, delta) == if IsInt64(v + delta) then Some(h[field := IntToString(v + delta)]) else None
  {
    hide IntToString, CanonicalInt;
    if field in h {
      forall v ensures CanonicalInt(h[field]) == Some(v) <==> IsInt64(v) && h[field] == IntToString(v) {
        CanonicalExact(h[field], v);
      }
      if HIncrBy(h, field, delta).Some? {
        assert HoldsInt(h, field, CanonicalInt(h[field]).value);
      }
    } else {
      assert HoldsInt(h, field, 0);
    }
  }

  /** What every operation leaves in every field. */
  lemma {:induction false} FieldAfter(h: Hash, op: Op, g: string)
    ensures var t := Step(h, op);
            var was := if g in h then Some(h[g]) else None;
            (if g in t then Some(t[g]) else None) ==
            match op
              case IncrIfComplete(field, delta) =>
                if field == g && Complete(h) && HIncrBy(h, g, delta).Some? then Some(HIncrBy(h, g, delta).value[g])
                else was
              case Rewrite(data, preserve) =>
                if g in preserve && g in h && Complete(h) then was else if g in data then Some(data[g]) else was
              case Overwrite(data) => if g in data then Some(data[g]) else was
              case SetField(field, text) => if field == g then Some(text) else was
              case SetNew(field, text) => if field == g && g !in h then Some(text) else was
              case PlainIncr(field, delta) =>
                if field == g && HIncrBy(h, g, delta).Some? then Some(HIncrBy(h, g, delta).value[g]) else was
              case Drop => None
  {
    hide CanonicalInt, IntToString;
  }

  lemma {:induction false} IncrAdds(h: Hash, field: string, delta: int)
    requires HIncrBy(h, field, delta).Some?
    ensures var t := HIncrBy(h, field, delta).value;
            && ValueOf(t, field) == Some((if field in h then ValueOf(h, field).value else 0) + delta)
            && forall g :: g != field ==> (g in t <==> g in h) && (g in h ==> t[g] == h[g])
  {
    var v := if field in h then CanonicalInt(h[field]).value else 0;
    PrintParse(v + delta);
  }

  lemma {:induction false} StepCredits(h: Hash, op: Op, f: string)
    requires Complete(h) && ValueOf(h, f).Some? && Respects(op, f) && !op.Drop?
    ensures ValueOf(Step(h, op), f) == Some(ValueOf(h, f).value + Credit(h, op, f))
  {
    hide CanonicalInt, HIncrBy;
    match op {
      case IncrIfComplete(field, delta) =>
        if IncrReply(h, field, delta) == Some(true) { IncrAdds(h, field, delta); }
      case PlainIncr(field, delta) =>
        if HIncrBy(h, field, delta).Some? { IncrAdds(h, field, delta); }
      case _ =>
    }
  }

  /** While a hash stays complete, a preserved field equals its starting value
      plus all the increments that answered true, whatever rewrites and other
      writes come between. */
  lemma {:induction false} PreservedFieldConserved(h: Hash, ops: seq<Op>, f: string)
    requires StaysComplete(h, ops) && ValueOf(h, f).Some?
    requires forall op :: op in ops ==> Respects(op, f)
    ensures ValueOf(Run(h, ops), f) == Some(ValueOf(h, f).value + Credits(h, ops, f))
    decreases |ops|
  {
    hide ValueOf, Step, Credit, Respects, Complete;
    if ops != [] {
      var op := ops[0];
      assert op in ops;
      assert StaysComplete(Step(h, op), ops[1..]);
      assert !op.Drop? by { NotDropped(h, ops); }
      assert Complete(h) by { NotDropped(h, ops); }
      StepCredits(h, op, f);
      PreservedFieldConserved(Step(h, op), ops[1..], f);
    }
  }

  /** What an operation asks to add to the field, whatever is answered. */
  function Asked(op: Op, f: string): int { if op.IncrIfComplete? && op.field == f then op.delta else 0 }

  function Requested(ops: seq<Op>, f: string): int
    decreases |ops|
  {
    if ops == [] then 0 else Asked(ops[0], f) + Requested(ops[1..], f)
  }

  /** After every operation of the run the field is its starting value plus all
      that was asked for so far. */
  ghost predicate AllCredited(h: Hash, ops: seq<Op>, f: string, v: int)
    decreases |ops|
  {
    ValueOf(h, f) == Some(v) && (ops == [] || AllCredited(Step(h, ops[0]), ops[1..], f, v + Asked(ops[0], f)))
  }

  /** No running sum of the amounts asked for leaves the 64-bit range. */
  ghost predicate SumsFit(v: int, ops: seq<Op>, f: string)
    decreases |ops|
  {
    IsInt64(v) && (ops == [] || SumsFit(v + Asked(ops[0], f), ops[1..], f))
  }

  lemma {:induction false} StepRequested(h: Hash, op: Op, f: string, v: int)
    requires Complete(h) && ValueOf(h, f) == Some(v) && Respects(op, f) && !op.Drop?
    ensures ValueOf(Step(h, op), f) == Some(v + Asked(op, f)) <==> IsInt64(v + Asked(op, f))
  {
    StepCredits(h, op, f);
    hide CanonicalInt, IntToString, Complete;
  }

  /** While a hash stays complete, every increment of a preserved field is
      credited in full, over the whole run, exactly when no running sum leaves
      the 64-bit range; the field then ends with all that was asked for. */
  lemma {:induction false} RequestedFieldConserved(h: Hash, ops: seq<Op>, f: string, v: int)
    requires StaysComplete(h, ops) && ValueOf(h, f) == Some(v)
    requires forall op :: op in ops ==> Respects(op, f)
    ensures AllCredited(h, ops, f, v) <==> SumsFit(v, ops, f)
    ensures SumsFit(v, ops, f) ==> ValueOf(Run(h, ops), f) == Some(v + Requested(ops, f))
  {
    CreditedExact(h, ops, f, v);
    hide *;
    if AllCredited(h, ops, f, v) { CreditedToTheEnd(h, ops, f, v); }
  }

  lemma {:induction false} CreditedToTheEnd(h: Hash, ops: seq<Op>, f: string, v: int)
    requires AllCredited(h, ops, f, v)
    ensures ValueOf(Run(h, ops), f) == Some(v + Requested(ops, f))
    decreases |ops|
  {
    hide ValueOf, Step, Asked;
    if ops != [] { CreditedToTheEnd(Step(h, ops[0]), ops[1..], f, v + Asked(ops[0], f)); }
  }

  lemma {:induction false} CreditedExact(h: Hash, ops: seq<Op>, f: string, v: int)
    requires StaysComplete(h, ops) && ValueOf(h, f) == Some(v)
    requires forall op :: op in ops ==> Respects(op, f)
    ensures AllCredited(h, ops, f, v) <==> SumsFit(v, ops, f)
    decreases |ops|
  {
    FieldInt(h, f);
    if ops != [] {
      var op := ops[0];
      assert op in ops;
      NotDropped(h, ops);
      RestComplete(h, ops);
      hide ValueOf, Step, Respects, Complete, StaysComplete, Asked, IsInt64;
      StepRequested(h, op, f, v);
      FieldInt(Step(h, op), f);
      if IsInt64(v + Asked(op, f)) {
        assert forall o :: o in ops[1..] ==> o in ops;
        CreditedExact(Step(h, op), ops[1..], f, v + Asked(op, f));
      } else {
        NotFirst(Step(h, op), ops[1..], f, v + Asked(op, f));
      }
    }
  }

  lemma {:induction false} NotFirst(h: Hash, ops: seq<Op>, f: string, v: int)
    ensures ValueOf(h, f) != Some(v) ==> !AllCredited(h, ops, f, v)
    ensures !IsInt64(v) ==> !SumsFit(v, ops, f)
  {
    hide ValueOf;
  }

  lemma {:induction false} RestComplete(h: Hash, ops: seq<Op>)
    requires StaysComplete(h, ops) && ops != []
    ensures StaysComplete(Step(h, ops[0]), ops[1..])
  {
  }

  lemma {:induction false} FieldInt(h: Hash, f: string)
    ensures ValueOf(h, f).Some? ==> IsInt64(ValueOf(h, f).value)
  {
  }

  lemma {:induction false} NotDropped(h: Hash, ops: seq<Op>)
    requires StaysComplete(h, ops) && ops != []
    ensures Complete(h) && !ops[0].Drop?
  {
    var t := Step(h, ops[0]);
    assert StaysComplete(t, ops[1..]);
    assert Complete(t);
  }

  /** A rewrite leaves the hash complete exactly when the Id it ends with is a
      real one: the kept one, else the object's, else the one already there. */
  lemma {:induction false} RewriteCompletes(h: Hash, data: Hash, preserve: set<string>)
    ensures Complete(Rewritten(h, data, preserve)) <==>
              if "Id" in data && !("Id" in preserve && Complete(h)) then data["Id"] != "" && data["Id"] != "0"
              else Complete(h)
  {
  }

  // ---------------------------------------------------------------------
  // Incomplete hashes
  // ---------------------------------------------------------------------

  predicate StaysIncomplete(h: Hash, ops: seq<Op>)
    decreases |ops|
  {
    !Complete(h) && (ops == [] || StaysIncomplete(Step(h, ops[0]), ops[1..]))
  }

  /** While a hash stays incomplete, whatever else is written to it, every
      conditional increment answers false and changes nothing, and no field is
      credited. */
  lemma {:induction false} IncompleteNeverIncremented(h: Hash, ops: seq<Op>, f: string)
    requires StaysIncomplete(h, ops)
    ensures forall k :: 0 <= k < |ops| && ops[k].IncrIfComplete? ==>
              var t := Run(h, ops[..k]);
              IncrReply(t, ops[k].field, ops[k].delta) == Some(false) && Step(t, ops[k]) == t
    ensures Credits(h, ops, f) == 0
  {
    NothingCredited(h, ops, f);
    hide StaysIncomplete, Complete, IncrReply;
    forall k | 0 <= k < |ops| && ops[k].IncrIfComplete?
      ensures IncrReply(Run(h, ops[..k]), ops[k].field, ops[k].delta) == Some(false)
    {
      IncompleteAt(h, ops, k);
      assert IncrReply(Run(h, ops[..k]), ops[k].field, ops[k].delta) == Some(false) by {
        Refused(Run(h, ops[..k]), ops[k].field, ops[k].delta);
      }
    }
  }

  lemma {:induction false} Refused(h: Hash, field: string, delta: int)
    ensures IncrReply(h, field, delta) == Some(false) <==> !Complete(h)
  {
    hide Complete;
  }

  lemma {:induction false} NothingCredited(h: Hash, ops: seq<Op>, f: string)
    requires StaysIncomplete(h, ops)
    ensures Credits(h, ops, f) == 0
    decreases |ops|
  {
    hide Complete, Step;
    if ops != [] { NothingCredited(Step(h, ops[0]), ops[1..], f); }
  }

  lemma {:induction false} IncompleteAt(h: Hash, ops: seq<Op>, k: nat)
    requires StaysIncomplete(h, ops) && k <= |ops|
    ensures !Complete(Run(h, ops[..k]))
    decreases k
  {
    hide Complete, Step;
    if k > 0 {
      assert ops[..k][1..] == ops[1..][..k - 1];
      IncompleteAt(Step(h, ops[0]), ops[1..], k - 1);
    }
  }

  lemma {:induction false} RunConcat(h: Hash, before: seq<Op>, after: seq<Op>)
    ensures Run(h, before + after) == Run(Run(h, before), after)
    decreases |before|
  {
    hide Step;
    if before == [] {
      assert before + after == after;
    } else {
      assert (before + after)[1..] == before[1..] + after;
      RunConcat(Step(h, before[0]), before[1..], after);
    }
  }

  /** Rewriting an incomplete hash leaves the object's own text in each of the
      object's fields, preserved or not. */
  lemma {:induction false} RebuildWrites(h: Hash, data: Hash, preserve: set<string>, f: string)
    requires !Complete(h) && f in data
    ensures f in Rewritten(h, data, preserve) && Rewritten(h, data, preserve)[f] == data[f]
    ensures ValueOf(Rewritten(h, data, preserve), f) == ValueOf(data, f)
  {
  }

  /** From the first write on, with partial values, drops and expiries in any
      order, then a rewrite that finds the hash incomplete, then respected
      operations while it stays complete: the field is the object's value plus
      the increments that answered true after that rewrite.  Nothing from before
      it survives, and the operations before it are unrestricted. */
  lemma {:induction false} RebuiltFieldConserved(
    h: Hash, before: seq<Op>, data: Hash, preserve: set<string>, after: seq<Op>, f: string)
    requires !Complete(Run(h, before)) && f in data && ValueOf(data, f).Some?
    requires StaysComplete(Step(Run(h, before), Rewrite(data, preserve)), after)
    requires forall op :: op in after ==> Respects(op, f)
    ensures ValueOf(Run(h, before + [Rewrite(data, preserve)] + after), f) ==
              Some(ValueOf(data, f).value
                   + Credits(Step(Run(h, before), Rewrite(data, preserve)), after, f))
    ensures SumsFit(ValueOf(data, f).value, after, f) ==>
              ValueOf(Run(h, before + [Rewrite(data, preserve)] + after), f)
              == Some(ValueOf(data, f).value + Requested(after, f))
  {
    var partial := Run(h, before);
    var rebuilt := Step(partial, Rewrite(data, preserve));
    RebuildWrites(partial, data, preserve, f);
    assert rebuilt == Rewritten(partial, data, preserve);
    PreservedFieldConserved(rebuilt, after, f);
    RequestedFieldConserved(rebuilt, after, f, ValueOf(data, f).value);
    hide SumsFit, Requested, Step, ValueOf, Credits, Complete, StaysComplete, Respects;
    RunConcat(h, before + [Rewrite(data, preserve)], after);
    RunConcat(h, before, [Rewrite(data, preserve)]);
    assert Run(partial, [Rewrite(data, preserve)]) == rebuilt by { RunSingle(partial, Rewrite(data, preserve)); }
  }

  lemma {:induction false} RunSingle(h: Hash, op: Op)
    ensures Run(h, [op]) == Step(h, op)
  {
    hide Step;
    assert [op][1..] == [];
  }

  /** The rewrite of an incomplete hash completes it exactly when the object has
      a real Id. */
  lemma {:induction false} RebuildCompletes(h: Hash, data: Hash, preserve: set<string>)
    requires !Complete(h)
    ensures Complete(Step(h, Rewrite(data, preserve))) <==> Complete(data)
  {
    RewriteCompletes(h, data, preserve);
  }

  // ---------------------------------------------------------------------
  // The scripts, in place
  // ---------------------------------------------------------------------

  datatype Entry = Entry(name: string, text: string)

  /** The hash a list of field-value arguments writes; later ones win. */
  function DataOf(args: seq<Entry>): Hash {
    if args == [] then map[] else DataOf(args[..|args| - 1])[args[|args| - 1].name := args[|args| - 1].text]
  }

  /** A field is written exactly when an argument names it, and its last one
      counts. */
  lemma {:induction false} LastEntryCounts(args: seq<Entry>, g: string)
    ensures g in DataOf(args) <==> exists i :: 0 <= i < |args| && args[i].name == g
    ensures forall i :: 0 <= i < |args| && args[i].name == g && (forall j :: i < j < |args| ==> args[j].name != g) ==>
              DataOf(args)[g] == args[i].text
  {
    if args != [] {
      var init, last := args[..|args| - 1], args[|args| - 1];
      LastEntryCounts(init, g);
      if last.name != g && g in DataOf(args) {
        var i :| 0 <= i < |init| && init[i].name == g;
        assert args[i].name == g;
      }
    }
  }

  class RedisKey {
    var fields: Hash

    constructor (h: Hash)
      ensures fields == h
    {
      fields := h;
    }

    /** The increment script: answers false exactly without a real Id, and true
        exactly when the field holds an integer, 0 when it is missing, and the
        sum fits 64 bits; the field then holds the sum.  Otherwise, and for an
        error, nothing changes. */
    method IncrByIfComplete(field: string, delta: int) returns (reply: Option<bool>)
      modifies this
      ensures reply == IncrReply(old(fields), field, delta)
      ensures fields == Step(old(fields), IncrIfComplete(field, delta))
      ensures reply == Some(false) <==>
                "Id" !in old(fields) || old(fields)["Id"] == "" || old(fields)["Id"] == "0"
      ensures reply == Some(true) <==>
                reply != Some(false) && exists v :: HoldsInt(old(fields), field, v) && IsInt64(v + delta)
      ensures forall v :: reply == Some(true) && HoldsInt(old(fields), field, v) ==>
                fields == old(fields)[field := IntToString(v + delta)]
      ensures reply != Some(true) ==> fields == old(fields)
    {
      hide IntToString, CanonicalInt;
      IncrExact(fields, field, delta);
      if "Id" !in fields || fields["Id"] == "" || fields["Id"] == "0" {
        return Some(false);
      }
      var incremented := HIncrBy(fields, field, delta);
      if incremented.None? {
        return None;
      }
      fields := incremented.value;
      return Some(true);
    }

    /** The rewriting script: save the preserved fields of a complete hash, set
        every field of the object, put the saved ones back in any order. */
    method SetPreserving(args: seq<Entry>, preserve: seq<string>)
      modifies this
      ensures fields == Step(old(fields), Rewrite(DataOf(args), set g | g in preserve))
    {
      var saved := SaveFields(preserve);
      SetFields(args);
      RestoreFields(saved);
    }

    method SaveFields(preserve: seq<string>) returns (saved: Hash)
      ensures saved == Kept(fields, set g | g in preserve)
    {
      saved := map[];
      if "Id" in fields && fields["Id"] != "" && fields["Id"] != "0" {
        for i := 0 to |preserve|
          invariant saved.Keys == set g | g in preserve[..i] && g in fields
          invariant forall g :: g in saved ==> g in fields && saved[g] == fields[g]
        {
          var field := preserve[i];
          assert preserve[..i + 1] == preserve[..i] + [field];
          if field in fields {
            saved := saved[field := fields[field]];
          }
        }
        assert preserve[..|preserve|] == preserve;
      }
    }

    method SetFields(args: seq<Entry>)
      modifies this
      ensures fields == old(fields) + DataOf(args)
    {
      for i := 0 to |args|
        invariant fields == old(fields) + DataOf(args[..i])
      {
        assert args[..i + 1][..i] == args[..i];
        fields := fields[args[i].name := args[i].text];
      }
      assert args[..|args|] == args;
    }

    method RestoreFields(saved: Hash)
      modifies this
      ensures fields == old(fields) + saved
    {
      var remaining := saved.Keys;
      while remaining != {}
        invariant remaining <= saved.Keys
        invariant fields == old(fields) + map g | g in saved && g !in remaining :: saved[g]
        decreases |remaining|
      {
        var field := AnyOf(remaining);
        fields := fields[field := saved[field]];
        remaining := remaining - {field};
      }
      assert saved == map g | g in saved && g !in remaining :: saved[g];
    }
  }
}
