/** The compositing-operator names accepted by the configuration
    (include/cairo/utils.hpp). */
module CairoUtils {
  import opened Ints

  /** The cairo compositing operators, `CAIRO_OPERATOR_*`. */
  datatype Operator =
    | Clear | Source | Over | In | Out | Atop
    | Dest | DestOver | DestIn | DestOut | DestAtop
    | Xor | Add | Saturate
    | Multiply | Screen | Overlay | Darken | Lighten | ColorDodge | ColorBurn
    | HardLight | SoftLight | Difference | Exclusion
    | HslHue | HslSaturation | HslColor | HslLuminosity

  /** The configuration name of each operator. */
  function Name(op: Operator): (s: string)
    ensures s != []
  {
    match op
    case Clear => "clear"
    case Source => "source"
    case Over => "over"
    case In => "in"
    case Out => "out"
    case Atop => "atop"
    case Dest => "dest"
    case DestOver => "dest-over"
    case DestIn => "dest-in"
    case DestOut => "dest-out"
    case DestAtop => "dest-atop"
    case Xor => "xor"
    case Add => "add"
    case Saturate => "saturate"
    case Multiply => "multiply"
    case Screen => "screen"
    case Overlay => "overlay"
    case Darken => "darken"
    case Lighten => "lighten"
    case ColorDodge => "color-dodge"
    case ColorBurn => "color-burn"
    case HardLight => "hard-light"
    case SoftLight => "soft-light"
    case Difference => "difference"
    case Exclusion => "exclusion"
    case HslHue => "hsl-hue"
    case HslSaturation => "hsl-saturation"
    case HslColor => "hsl-color"
    case HslLuminosity => "hsl-luminosity"
  }

  /** The operator a configuration name stands for, read name by name. */
  function FromName(s: string): Option<Operator>
  {
    match s
    case "clear" => Some(Clear)
    case "source" => Some(Source)
    case "over" => Some(Over)
    case "in" => Some(In)
    case "out" => Some(Out)
    case "atop" => Some(Atop)
    case "dest" => Some(Dest)
    case "dest-over" => Some(DestOver)
    case "dest-in" => Some(DestIn)
    case "dest-out" => Some(DestOut)
    case "dest-atop" => Some(DestAtop)
    case "xor" => Some(Xor)
    case "add" => Some(Add)
    case "saturate" => Some(Saturate)
    case "multiply" => Some(Multiply)
    case "screen" => Some(Screen)
    case "overlay" => Some(Overlay)
    case "darken" => Some(Darken)
    case "lighten" => Some(Lighten)
    case "color-dodge" => Some(ColorDodge)
    case "color-burn" => Some(ColorBurn)
    case "hard-light" => Some(HardLight)
    case "soft-light" => Some(SoftLight)
    case "difference" => Some(Difference)
    case "exclusion" => Some(Exclusion)
    case "hsl-hue" => Some(HslHue)
    case "hsl-saturation" => Some(HslSaturation)
    case "hsl-color" => Some(HslColor)
    case "hsl-luminosity" => Some(HslLuminosity)
    case _ => None
  }

  /** Reading an operator's name gives the operator back. */
  lemma FromNameName(op: Operator)
    ensures FromName(Name(op)) == Some(op)
  {
  }

  /** A string read as an operator is that operator's name. */
  lemma NameFromName(s: string)
    ensures FromName(s).Some? ==> Name(FromName(s).value) == s
  {
  }

  /** No two operators share a name. */
  lemma NameInjective(a: Operator, b: Operator)
    requires Name(a) == Name(b)
    ensures a == b
  {
    FromNameName(a);
    FromNameName(b);
  }

  /** The order in which the table is filled. */
  const Operators: seq<Operator> := [Clear, Source, Over, In, Out, Atop, Dest, DestOver, DestIn, DestOut, DestAtop, Xor, Add, Saturate, Multiply, Screen, Overlay, Darken, Lighten, ColorDodge, ColorBurn, HardLight, SoftLight, Difference, Exclusion, HslHue, HslSaturation, HslColor, HslLuminosity]

  /** The map after inserting the name of each operator of `ops`, in order. */
  function Table(ops: seq<Operator>): map<string, Operator>
  {
    if ops == [] then map[] else Table(ops[..|ops| - 1])[Name(ops[|ops| - 1]) := ops[|ops| - 1]]
  }

  /** Every operator is inserted. */
  lemma AllListed(op: Operator)
    ensures op in Operators
  {
  }

  /** The filled table maps exactly the names of the inserted operators, each
      to its own operator. */
  lemma {:induction false} TableLookup(ops: seq<Operator>)
    ensures forall op :: Name(op) in Table(ops) <==> op in ops
    ensures forall op :: op in ops ==> Table(ops)[Name(op)] == op
    ensures forall k :: k in Table(ops) ==> Name(Table(ops)[k]) == k
  {
    if ops != [] {
      forall a, b | Name(a) == Name(b) ensures a == b {
        NameInjective(a, b);
      }
      TableLookup(ops[..|ops| - 1]);
      assert ops == ops[..|ops| - 1] + [ops[|ops| - 1]];
    }
  }

  /** The full table: every name is a key, every key is a name, and each name
      maps to its operator. */
  lemma FullTable()
    ensures forall op :: Name(op) in Table(Operators) && Table(Operators)[Name(op)] == op
    ensures forall k :: k in Table(Operators) ==> Name(Table(Operators)[k]) == k
  {
    TableLookup(Operators);
    forall op ensures op in Operators {
      AllListed(op);
    }
  }

  /** What `str2operator` returns: `fallback` for the empty name and for a
      name missing from the full table, the table's operator otherwise. */
  function Resolve(mode: string, fallback: Operator): Operator
  {
    if mode == [] then fallback
    else if mode in Table(Operators) then Table(Operators)[mode]
    else fallback
  }

  /** The lookup agrees with reading the name: a name that stands for an
      operator gives it, anything else gives `fallback`. */
  lemma ResolveByName(mode: string, fallback: Operator)
    ensures Resolve(mode, fallback) == if FromName(mode).Some? then FromName(mode).value else fallback
  {
    FullTable();
    NameFromName(mode);
    if mode in Table(Operators) {
      FromNameName(Table(Operators)[mode]);
    }
  }

  /** Each listed name resolves to its operator, whatever the fallback. */
  lemma ResolveNames(op: Operator, fallback: Operator)
    ensures Resolve(Name(op), fallback) == op
  {
    ResolveByName(Name(op), fallback);
    FromNameName(op);
  }

  /** The empty name and every name that is not listed resolve to `fallback`. */
  lemma ResolveUnknown(mode: string, fallback: Operator)
    requires forall op :: Name(op) != mode
    ensures Resolve(mode, fallback) == fallback
  {
    ResolveByName(mode, fallback);
    NameFromName(mode);
  }

  /** Distinct operators have names that resolve differently. */
  lemma ResolveInjective(a: Operator, b: Operator, fallback: Operator)
    requires Resolve(Name(a), fallback) == Resolve(Name(b), fallback)
    ensures a == b
  {
    ResolveNames(a, fallback);
    ResolveNames(b, fallback);
  }

  /** Sample names: two from the table, the empty name, and a name in the
      wrong case. */
  lemma Examples(fallback: Operator)
    ensures Resolve("over", fallback) == Over
    ensures Resolve("xor", fallback) == Xor
    ensures Resolve("", fallback) == fallback
    ensures Resolve("Over", fallback) == fallback
  {
    ResolveByName("over", fallback);
    ResolveByName("xor", fallback);
    ResolveByName("Over", fallback);
  }

  /** The function-local static map of `str2operator`: empty until the first
      call with a non-empty name fills it, full from then on. */
  class OperatorTable {
    var modes: map<string, Operator>

    ghost predicate Valid()
      reads this
    {
      modes == map[] || modes == Table(Operators)
    }

    constructor()
      ensures modes == map[]
    {
      modes := map[];
    }

    /** The one-time fill of the static map, in source order. */
    method Fill()
      modifies this
      requires modes == map[]
      ensures modes == Table(Operators)
    {
      for i := 0 to |Operators|
        invariant modes == Table(Operators[..i])
      {
        assert Operators[..i + 1][..i] == Operators[..i];
        modes := modes[Name(Operators[i]) := Operators[i]];
      }
      assert Operators[..|Operators|] == Operators;
    }

    /** `str2operator`: the empty name gives `fallback` without touching the
        table; otherwise the table is filled if it is still empty and the name
        is looked up, with `fallback` for an unknown name. The result depends
        only on the arguments, never on whether this call did the fill. */
    method Str2Operator(mode: string, fallback: Operator) returns (op: Operator)
      requires Valid()
      modifies this
      ensures Valid()
      ensures mode == [] ==> op == fallback && modes == old(modes)
      ensures mode != [] ==> modes == Table(Operators)
      ensures op == Resolve(mode, fallback)
    {
      if mode == [] {
        return fallback;
      }
      if modes == map[] {
        Fill();
      }
      if mode in modes {
        op := modes[mode];
      } else {
        op := fallback;
      }
    }
  }
}
