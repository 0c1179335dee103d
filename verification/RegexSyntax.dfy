/** Abstract syntax of patterns, as the term, alternative and disjunction parsers see it. */
module RegexSyntax {
  import opened CharInput

  /** INT32_MAX as an upper repetition bound stands for "no bound". */
  const INFINITY: nat := 0x7FFF_FFFF
  const CAPTURE_COUNT_MAX: nat := 255
  const UINT32_MAX: nat := 0xFFFF_FFFF

  /** Case, multi-line and dot-all modifiers can change inside a pattern, so each node that
      depends on one carries it. A class is a list of boundary points: it holds the characters c
      with points[2i] <= c < points[2i + 1] for some i. ClassOrEmpty ends the alternatives of a class with
      strings that has the empty string: a character of the class or else nothing. */
  datatype Re =
    | Empty
    | Char(c: CodePoint, icase: bool)
    | AnyChar(dotall: bool)
    | Class(points: seq<nat>, icase: bool)
    | ClassOrEmpty(points: seq<nat>, icase: bool)
    | LineStart(multiline: bool)
    | LineEnd(multiline: bool)
    | WordBoundary(negated: bool, icase: bool)
    | BackRef(index: nat, icase: bool)
    | Seq(first: Re, second: Re)
    | Alt(left: Re, right: Re)
    | Group(body: Re)
    | Look(body: Re, negated: bool, behind: bool)
    | Quant(body: Re, min: nat, max: nat, greedy: bool)

  /** The number of capture groups opened in `r`. */
  function Groups(r: Re): nat
  {
    match r
    case Seq(a, b) => Groups(a) + Groups(b)
    case Alt(a, b) => Groups(a) + Groups(b)
    case Group(a) => 1 + Groups(a)
    case Look(a, _, _) => Groups(a)
    case Quant(a, _, _, _) => Groups(a)
    case _ => 0
  }

  /** A sorted point list of whole intervals; the last end may be UINT32_MAX, for infinity. */
  predicate ValidPoints(points: seq<nat>)
  {
    |points| % 2 == 0 &&
    (forall i, j :: 0 <= i < j < |points| ==> points[i] < points[j]) &&
    (forall i :: 0 <= i < |points| ==> points[i] <= UINT32_MAX)
  }

  /** Interval `i` of the list contains `c`. */
  predicate Inside(points: seq<nat>, i: int, c: nat)
  {
    0 <= i < |points| / 2 && points[2 * i] <= c < points[2 * i + 1]
  }

  predicate InPoints(points: seq<nat>, c: nat)
  {
    exists i :: 0 <= i < |points| / 2 && Inside(points, i, c)
  }

  /** What the parser guarantees of every pattern it accepts. */
  predicate WellFormed(r: Re)
  {
    match r
    case Class(points, _) => ValidPoints(points)
    case ClassOrEmpty(points, _) => ValidPoints(points)
    case BackRef(index, _) => index <= 255
    case Seq(a, b) => WellFormed(a) && WellFormed(b)
    case Alt(a, b) => WellFormed(a) && WellFormed(b)
    case Group(a) => WellFormed(a)
    case Look(a, _, _) => WellFormed(a)
    case Quant(a, min, max, _) => WellFormed(a) && min <= max <= INFINITY
    case _ => true
  }

  /** No class has more ranges than a range instruction can hold; the compiler rejects the others. */
  predicate SmallClasses(r: Re)
  {
    match r
    case Class(points, _) => |points| / 2 < 65535
    case ClassOrEmpty(points, _) => |points| / 2 < 65535
    case Seq(a, b) => SmallClasses(a) && SmallClasses(b)
    case Alt(a, b) => SmallClasses(a) && SmallClasses(b)
    case Group(a) => SmallClasses(a)
    case Look(a, _, _) => SmallClasses(a)
    case Quant(a, _, _, _) => SmallClasses(a)
    case _ => true
  }
}
