/** One characteristic: its value, what a write makes of it, and its listeners. */
module Characteristic {
  import opened Options

  /** A dynamically typed value. JSON arrays and objects are left out. */
  datatype Val = Nil | Float(r: real) | Int(n: int) | Uint64(u: nat) | Bool(b: bool) | Text(s: string)

  /** `Integer` stands for uint8, uint16, uint32 and int32; `Other` for string,
      data and tlv8. */
  datatype Format = FloatFormat | Integer | UnsignedLong | Boolean | Other

  datatype Permission = Read | Write | TimedWrite | Events | Hidden | WriteResponse

  /** The lenient conversions of the values that arrive. */
  datatype Conversions = Conversions(
    toFloat: Val -> real, toInt: Val -> int, toUint64: Val -> nat, toBool: Val -> bool)

  /** What a write handler answers to one request, or that it panics. */
  datatype Answer = Answer(value: Val, code: int) | Crash

  /** Whether the application or a controller writes; a handler that is called for a
      controller's write gives `answer`. */
  datatype Origin = Local | Remote(answer: Answer)

  datatype Config = Config(
    format: Format, permissions: seq<Permission>, min: Val, max: Val,
    validVals: seq<int>, validRange: seq<int>, updateOnSameValue: bool,
    conversions: Conversions, handles: bool)

  /** What a write returns and leaves behind. `Panic` is the failed type assertion
      on a uint64 value, or a handler that panics; it stores nothing. */
  datatype Outcome = Replied(reply: Val, code: int, value: Val, notified: bool) | Panic

  const READ_ONLY := -70404
  const INVALID_VALUE := -70410

  // ---- The source's steps ----

  function Convert(c: Config, v: Val): Val {
    match c.format
    case FloatFormat => Float(c.conversions.toFloat(v))
    case Integer => Int(c.conversions.toInt(v))
    case UnsignedLong => Uint64(c.conversions.toUint64(v))
    case Boolean => Bool(c.conversions.toBool(v))
    case Other => v
  }

  function ClampFloat(c: Config, v: real): real {
    if c.max.Float? && v > c.max.r then c.max.r
    else if c.min.Float? && v < c.min.r then c.min.r
    else v
  }

  function ClampInt(c: Config, v: int): int {
    if c.max.Int? && v > c.max.n then c.max.n
    else if c.min.Int? && v < c.min.n then c.min.n
    else v
  }

  function Limited(c: Config, v: Val): Val {
    if c.format == FloatFormat && v.Float? then Float(ClampFloat(c, v.r))
    else if c.format == Integer && v.Int? then Int(ClampInt(c, v.n))
    else v
  }

  predicate ValidVal(c: Config, v: Val) {
    v.Int? ==>
      if c.validVals != [] then v.n in c.validVals
      else |c.validRange| == 2 ==> c.validRange[0] <= v.n <= c.validRange[1]
  }

  predicate Allowed(c: Config, from: Origin) {
    from.Remote? ==> Write in c.permissions
  }

  /** The limited value is the current one and nobody wants to hear it again. */
  predicate Unchanged(c: Config, before: Val, v: Val) {
    before == Limited(c, Convert(c, v)) && !c.updateOnSameValue
  }

  /** The write gets as far as the handler. */
  predicate CallsHandler(c: Config, before: Val, v: Val, from: Origin) {
    && from.Remote? && Allowed(c, from) && c.handles && c.format != UnsignedLong
    && !Unchanged(c, before, v) && ValidVal(c, Limited(c, Convert(c, v)))
  }

  function Assigned(c: Config, before: Val, v: Val, from: Origin): Outcome {
    if c.format == UnsignedLong then Panic
    else
      var converted := Convert(c, v);
      var limited := Limited(c, converted);
      if before == limited && !c.updateOnSameValue then Replied(Nil, 0, before, false)
      else if !ValidVal(c, limited) then Replied(Nil, INVALID_VALUE, before, false)
      else if c.handles && from.Remote? then
        match from.answer
        case Crash => Panic
        case Answer(value, code) =>
          if code != 0 then Replied(value, code, before, false)
          else Replied(if value != Nil then value else converted, 0, limited, true)
      else Replied(converted, 0, limited, true)
  }

  function Requested(c: Config, before: Val, v: Val, from: Origin): Outcome {
    if !Allowed(c, from) then Replied(v, READ_ONLY, before, false)
    else Assigned(c, before, v, from)
  }

  // ---- One write ----

  /** A write panics exactly when its sender may write and the format is uint64, or
      the handler is called and panics. */
  lemma {:induction false} PanicIff(c: Config, before: Val, v: Val, from: Origin)
    ensures Requested(c, before, v, from).Panic?
            <==> Allowed(c, from)
                 && (c.format == UnsignedLong || (CallsHandler(c, before, v, from) && from.answer.Crash?))
  {
    hide Limited, Convert, ValidVal;
  }

  lemma {:induction false} AssignedOutcome(c: Config, before: Val, v: Val, from: Origin)
    requires Allowed(c, from) && Assigned(c, before, v, from).Replied?
    ensures var o := Assigned(c, before, v, from);
            var limited := Limited(c, Convert(c, v));
            && (o.code == 0 <==>
                Unchanged(c, before, v)
                || (ValidVal(c, limited) && (CallsHandler(c, before, v, from) ==> from.answer.code == 0)))
            && (if o.code == 0 then o.value == limited else o.value == before)
            && (o.notified ==> o.code == 0 && ValidVal(c, o.value))
            && (o.value != before ==> o.notified)
  {
    hide Limited, Convert, ValidVal;
  }

  /** A write that does not panic succeeds exactly when its sender may write and the
      limited value is either the current one or both valid and accepted by the
      handler; then the limited value is the one stored, and in every other case
      nothing changes and nobody is notified. */
  lemma {:induction false} WriteOutcome(c: Config, before: Val, v: Val, from: Origin)
    ensures var o := Requested(c, before, v, from);
            var limited := Limited(c, Convert(c, v));
            o.Replied? ==>
              && (o.code == 0 <==>
                  && Allowed(c, from)
                  && (Unchanged(c, before, v)
                      || (ValidVal(c, limited) && (CallsHandler(c, before, v, from) ==> from.answer.code == 0))))
              && (if o.code == 0 then o.value == limited else o.value == before)
              && (o.notified ==> o.code == 0 && ValidVal(c, o.value))
              && (o.value != before ==> o.notified)
  {
    hide Limited, Convert, ValidVal, Assigned, CallsHandler, Unchanged;
    PanicIff(c, before, v, from);
    if Allowed(c, from) && Assigned(c, before, v, from).Replied? {
      AssignedOutcome(c, before, v, from);
    }
  }

  predicate WithinBounds(c: Config, v: Val) {
    match c.format
    case FloatFormat =>
      v.Float? && (c.min.Float? ==> c.min.r <= v.r) && (c.max.Float? ==> v.r <= c.max.r)
    case Integer =>
      v.Int? && (c.min.Int? ==> c.min.n <= v.n) && (c.max.Int? ==> v.n <= c.max.n)
    case UnsignedLong => true
    case Boolean => v.Bool?
    case Other => true
  }

  predicate Ordered(c: Config) {
    && (c.format == FloatFormat && c.min.Float? && c.max.Float? ==> c.min.r <= c.max.r)
    && (c.format == Integer && c.min.Int? && c.max.Int? ==> c.min.n <= c.max.n)
  }

  /** Limiting lands within the bounds, for every written value, exactly when the
      bounds are not inverted. */
  lemma {:induction false} LimitedIff(c: Config)
    requires c.format == FloatFormat || c.format == Integer
    ensures Ordered(c) <==> forall v :: WithinBounds(c, Limited(c, Convert(c, v)))
  {
    if !Ordered(c) {
      assert !WithinBounds(c, Limited(c, Convert(c, Nil)));
    }
  }

  predicate Sound(c: Config, v: Val) {
    WithinBounds(c, v) && ValidVal(c, v)
  }

  lemma {:induction false} LimitedKeepsIff(c: Config, v: Val)
    requires c.format != UnsignedLong
    ensures Limited(c, Convert(c, v)) == Convert(c, v) <==> WithinBounds(c, Convert(c, v))
  {
  }

  /** `y` is the value within the bounds that is nearest to `x`; where the bounds are
      inverted, the upper one if `x` is above it and else the lower one. */
  ghost predicate NearestReal(min: Val, max: Val, x: real, y: real) {
    if min.Float? && max.Float? && min.r > max.r then y == if x > max.r then max.r else min.r
    else
      && (min.Float? ==> min.r <= y) && (max.Float? ==> y <= max.r)
      && (y < x ==> max == Float(y)) && (y > x ==> min == Float(y))
  }

  ghost predicate NearestInt(min: Val, max: Val, x: int, y: int) {
    if min.Int? && max.Int? && min.n > max.n then y == if x > max.n then max.n else min.n
    else
      && (min.Int? ==> min.n <= y) && (max.Int? ==> y <= max.n)
      && (y < x ==> max == Int(y)) && (y > x ==> min == Int(y))
  }

  /** What a successful write stores, by format: the nearest number within the bounds, a
      bool, or the value itself. */
  lemma {:induction false} StoredIs(c: Config, before: Val, v: Val, from: Origin)
    ensures var o := Requested(c, before, v, from);
            o.Replied? && o.code == 0 ==>
              match c.format
              case FloatFormat => o.value.Float? && NearestReal(c.min, c.max, c.conversions.toFloat(v), o.value.r)
              case Integer => o.value.Int? && NearestInt(c.min, c.max, c.conversions.toInt(v), o.value.n)
              case UnsignedLong => false
              case Boolean => o.value == Bool(c.conversions.toBool(v))
              case Other => o.value == v
  {
    WriteOutcome(c, before, v, from);
    PanicIff(c, before, v, from);
    hide ValidVal, Requested, CallsHandler;
  }

  /** A number passes if it is one of the valid values where there are any, else if it is
      in the valid range where there is one; everything else passes. */
  predicate Passes(c: Config, v: Val) {
    match v
    case Int(n) =>
      || (exists i :: 0 <= i < |c.validVals| && c.validVals[i] == n)
      || (|c.validVals| == 0 && (|c.validRange| != 2 || c.validRange[0] <= n <= c.validRange[1]))
    case _ => true
  }

  /** What a write without a handler is answered: the value itself and -70404 if its
      sender may not write; nothing and zero if it changes nothing; nothing and -70410
      if it is not valid; and else the converted value and zero. It is notified in the
      last case only. */
  lemma {:induction false} ReplyIs(c: Config, before: Val, v: Val, from: Origin)
    requires c.format != UnsignedLong && !(c.handles && from.Remote?)
    ensures var o := Requested(c, before, v, from);
            var converted := match c.format
              case FloatFormat => Float(c.conversions.toFloat(v))
              case Integer => Int(c.conversions.toInt(v))
              case UnsignedLong => Nil
              case Boolean => Bool(c.conversions.toBool(v))
              case Other => v;
            if from.Remote? && Write !in c.permissions then o == Replied(v, -70404, before, false)
            else if before == Limited(c, converted) && !c.updateOnSameValue then o == Replied(Nil, 0, before, false)
            else if !Passes(c, Limited(c, converted)) then o == Replied(Nil, -70410, before, false)
            else o == Replied(converted, 0, Limited(c, converted), true)
  {
    PassesIff(c, Limited(c, Convert(c, v)));
    hide Limited, ValidVal, Passes;
  }

  lemma {:induction false} PassesIff(c: Config, v: Val)
    ensures ValidVal(c, v) <==> Passes(c, v)
  {
  }

  /** With a handler the write of a controller goes on to it where it would have been
      stored, and is answered as the handler says; zero means that it is stored, and
      that the reply is the converted value unless the handler gives another. */
  lemma {:induction false} HandlerReplies(c: Config, before: Val, v: Val, answer: Answer)
    requires c.handles
    ensures var from := Remote(answer);
            var o, plain := Requested(c, before, v, from), Requested(c.(handles := false), before, v, from);
            o == if plain.Panic? || !plain.notified then plain
                 else match answer
                      case Crash => Panic
                      case Answer(value, code) =>
                        if code != 0 then Replied(value, code, before, false)
                        else if value == Nil then plain
                        else plain.(reply := value)
  {
    WithoutHandler(c, v);
    hide Limited, Convert, ValidVal;
    if Allowed(c, Remote(answer)) && c.format != UnsignedLong {
      var limited := Limited(c, Convert(c, v));
      var d := c.(handles := false);
      assert Requested(d, before, v, Remote(answer))
             == if Unchanged(c, before, v) then Replied(Nil, 0, before, false)
                else if !ValidVal(c, limited) then Replied(Nil, INVALID_VALUE, before, false)
                else Replied(Convert(c, v), 0, limited, true);
    }
  }

  lemma {:induction false} WithoutHandler(c: Config, v: Val)
    ensures var d := c.(handles := false);
            && Convert(d, v) == Convert(c, v) && Limited(d, Convert(d, v)) == Limited(c, Convert(c, v))
            && (ValidVal(d, Limited(d, Convert(d, v))) <==> ValidVal(c, Limited(c, Convert(c, v))))
  {
  }

  /** The reply to a write that no handler answers is the converted value, not the
      stored one: they agree exactly when the converted value was within the bounds. */
  lemma {:induction false} ReplyMatchesIff(c: Config, before: Val, v: Val, from: Origin)
    ensures var o := Requested(c, before, v, from);
            o.Replied? && o.notified && !CallsHandler(c, before, v, from) ==>
              (o.reply == o.value <==> WithinBounds(c, Convert(c, v)))
  {
    hide Limited, Convert, ValidVal, WithinBounds;
    if c.format != UnsignedLong {
      LimitedKeepsIff(c, v);
    }
  }

  // ---- Runs of writes ----

  datatype Request = Request(v: Val, from: Origin)

  /** The value after a run of writes. */
  function Written(c: Config, v: Val, ws: seq<Request>): Val
    decreases |ws|
  {
    if ws == [] then v
    else
      var o := Requested(c, v, ws[0].v, ws[0].from);
      Written(c, if o.Panic? then v else o.value, ws[1..])
  }

  lemma {:induction false} LimitedWithin(c: Config, v: Val)
    requires Ordered(c)
    ensures WithinBounds(c, Limited(c, Convert(c, v)))
  {
  }

  /** A notified write leaves a sound value, whatever the value was before. */
  lemma {:induction false} NotifiedIsSound(c: Config, before: Val, v: Val, from: Origin)
    requires Ordered(c)
    ensures var o := Requested(c, before, v, from);
            o.Replied? ==> if o.notified then Sound(c, o.value) else o.value == before
  {
    hide Limited, Convert, ValidVal, Requested, WithinBounds;
    WriteOutcome(c, before, v, from);
    LimitedWithin(c, v);
  }

  /** Over any run of local and remote writes the value stays within its bounds and
      in its valid set once it is so. */
  lemma {:induction false} StaysSound(c: Config, v: Val, ws: seq<Request>)
    requires Ordered(c) && Sound(c, v)
    ensures Sound(c, Written(c, v, ws))
    decreases |ws|
  {
    hide Sound, Requested;
    if ws != [] {
      NotifiedIsSound(c, v, ws[0].v, ws[0].from);
      var o := Requested(c, v, ws[0].v, ws[0].from);
      StaysSound(c, if o.Panic? then v else o.value, ws[1..]);
    }
  }

  // ---- Listeners ----

  datatype Change = Change(before: Val, after: Val)

  /** The changes lead from `first` to `last` without a gap. */
  predicate Chain(first: Val, changes: seq<Change>, last: Val)
    decreases |changes|
  {
    if changes == [] then first == last
    else changes[0].before == first && Chain(changes[0].after, changes[1..], last)
  }

  lemma {:induction false} ChainExtends(first: Val, changes: seq<Change>, last: Val, next: Val)
    requires Chain(first, changes, last)
    ensures Chain(first, changes + [Change(last, next)], next)
    decreases |changes|
  {
    var all := changes + [Change(last, next)];
    if changes != [] {
      assert all[1..] == changes[1..] + [Change(last, next)];
      ChainExtends(changes[0].after, changes[1..], last, next);
    } else {
      assert all[1..] == [];
    }
  }

  lemma {:induction false} ChainsExtend(
      since: seq<Val>, received: seq<seq<Change>>, last: Val, next: Val, received': seq<seq<Change>>)
    requires |since| == |received| == |received'|
    requires forall i :: 0 <= i < |received| ==> Chain(since[i], received[i], last)
    requires forall i :: 0 <= i < |received| ==> received'[i] == received[i] + [Change(last, next)]
    ensures forall i :: 0 <= i < |received| ==> Chain(since[i], received'[i], next)
  {
    forall i | 0 <= i < |received|
      ensures Chain(since[i], received'[i], next)
    {
      ChainExtends(since[i], received[i], last, next);
    }
  }

  class C {
    const config: Config
    var val: Val
    /** What each registered listener was called with. */
    var received: seq<seq<Change>>
    /** The value at the time each listener was registered. */
    ghost var since: seq<Val>

    ghost predicate Valid()
      reads this
    {
      && |since| == |received|
      && forall i :: 0 <= i < |received| ==> Chain(since[i], received[i], val)
    }

    constructor (config: Config, val: Val)
      ensures Valid() && this.config == config && this.val == val && received == []
    {
      this.config, this.val := config, val;
      received, since := [], [];
    }

    method OnCValueUpdate()
      requires Valid()
      modifies this
      ensures Valid() && val == old(val)
      ensures received == old(received) + [[]] && since == old(since) + [val]
    {
      received := received + [[]];
      since := since + [val];
    }

    method ClampedInt(value: int) returns (v: int)
      ensures v == ClampInt(config, value)
    {
      v := value;
      if config.max.Int? && v > config.max.n {
        v := config.max.n;
      } else if config.min.Int? && v < config.min.n {
        v := config.min.n;
      }
    }

    method ClampedFloat(value: real) returns (v: real)
      ensures v == ClampFloat(config, value)
    {
      v := value;
      if config.max.Float? && v > config.max.r {
        v := config.max.r;
      } else if config.min.Float? && v < config.min.r {
        v := config.min.r;
      }
    }

    /** Limits a converted value; the int assertion of the source fails on the
        uint64 format. */
    method Limit(converted: Val) returns (limited: Option<Val>)
      requires exists v :: converted == Convert(config, v)
      ensures limited == if config.format == UnsignedLong then None else Some(Limited(config, converted))
    {
      match config.format {
        case FloatFormat =>
          var x := ClampedFloat(converted.r);
          limited := Some(Float(x));
        case Integer =>
          var n := ClampedInt(converted.n);
          limited := Some(Int(n));
        case UnsignedLong =>
          limited := None;
        case Boolean =>
          limited := Some(converted);
        case Other =>
          limited := Some(converted);
      }
    }

    method IsValid(v: Val) returns (ok: bool)
      ensures ok == ValidVal(config, v)
    {
      if !v.Int? {
        return true;
      }
      if |config.validVals| > 0 {
        for i := 0 to |config.validVals|
          invariant v.n !in config.validVals[..i]
        {
          if config.validVals[i] == v.n {
            return true;
          }
        }
        assert config.validVals[..|config.validVals|] == config.validVals;
        return false;
      }
      if |config.validRange| == 2 {
        return config.validRange[0] <= v.n && config.validRange[1] >= v.n;
      }
      return true;
    }

    /** Tells every listener about one change. */
    method Notify(c: Change)
      modifies this`received
      ensures |received| == |old(received)|
      ensures forall i :: 0 <= i < |received| ==> received[i] == old(received)[i] + [c]
    {
      for i := 0 to |received|
        invariant |received| == |old(received)|
        invariant forall j :: 0 <= j < i ==> received[j] == old(received)[j] + [c]
        invariant forall j :: i <= j < |received| ==> received[j] == old(received)[j]
      {
        received := received[i := received[i] + [c]];
      }
    }

    /** A write by the application or a controller. Listeners that were registered
        before it keep an unbroken chain of changes that ends at the value. */
    method SetValueRequest(v: Val, from: Origin) returns (o: Outcome)
      requires Valid()
      modifies this`val, this`received
      ensures Valid()
      ensures o == Requested(config, old(val), v, from)
      ensures val == if o.Replied? then o.value else old(val)
      ensures |received| == |old(received)|
      ensures forall i :: 0 <= i < |received| ==>
        received[i] ==
          if o.Replied? && o.notified then old(received)[i] + [Change(old(val), val)] else old(received)[i]
    {
      hide Limited, Convert, ValidVal, Chain;
      if from.Remote? && Write !in config.permissions {
        return Replied(v, READ_ONLY, val, false);
      }
      var response := Convert(config, v);
      var limited := Limit(response);
      if limited.None? {
        return Panic;
      }
      var newVal := limited.value;
      var oldVal := val;
      if oldVal == newVal && !config.updateOnSameValue {
        return Replied(Nil, 0, val, false);
      }
      var ok := IsValid(newVal);
      if !ok {
        return Replied(Nil, INVALID_VALUE, val, false);
      }
      if config.handles && from.Remote? {
        if from.answer.Crash? {
          return Panic;
        }
        if from.answer.code != 0 {
          return Replied(from.answer.value, from.answer.code, val, false);
        }
        if from.answer.value != Nil {
          response := from.answer.value;
        }
      }
      val := newVal;
      Notify(Change(oldVal, newVal));
      ChainsExtend(since, old(received), oldVal, newVal, received);
      return Replied(response, 0, newVal, true);
    }
  }
}
