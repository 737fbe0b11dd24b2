/** The values the queries of the model compute with: cells with NULL, rows, and
    the three-valued truth SQL conditions have. */
module Sql {

  datatype Option<+T> = None | Some(value: T)

  datatype Cell = Null | Flag(b: bool) | Num(n: int) | Text(s: string)

  /** A row by column name; a column the row does not carry reads NULL, which is
      also how the row a LEFT JOIN did not find reads. */
  type Row = map<string, Cell>

  function Get(row: Row, column: string): Cell {
    if column in row then row[column] else Null
  }

  datatype Tri = True | False | Unknown

  function Truth(b: bool): Tri { if b then True else False }

  function Not3(a: Tri): Tri {
    match a case True => False case False => True case Unknown => Unknown
  }

  function And3(a: Tri, b: Tri): Tri {
    if a == False || b == False then False
    else if a == True && b == True then True
    else Unknown
  }

  function Or3(a: Tri, b: Tri): Tri {
    if a == True || b == True then True
    else if a == False && b == False then False
    else Unknown
  }

  /** a accepts no row b does not: the order FALSE, UNKNOWN, TRUE. */
  predicate Below(a: Tri, b: Tri) {
    a == False || b == True || a == b
  }

  function AndAll(ts: seq<Tri>): Tri {
    if ts == [] then True else And3(ts[0], AndAll(ts[1..]))
  }

  function OrAll(ts: seq<Tri>): Tri {
    if ts == [] then False else Or3(ts[0], OrAll(ts[1..]))
  }

  /** The order of the cells, NULL first; the dialects differ in where they put
      NULL, which no property of the model depends on. */
  function Kind(c: Cell): nat {
    match c case Null => 0 case Flag(_) => 1 case Num(_) => 2 case Text(_) => 3
  }

  predicate TextLeq(a: string, b: string) {
    a == "" || (b != "" && (a[0] < b[0] || (a[0] == b[0] && TextLeq(a[1..], b[1..]))))
  }

  predicate Leq(a: Cell, b: Cell) {
    if Kind(a) != Kind(b) then Kind(a) < Kind(b)
    else match a
      case Null => true
      case Flag(x) => !x || b.b
      case Num(x) => x <= b.n
      case Text(x) => TextLeq(x, b.s)
  }

  lemma {:induction false} TextLeqOrder(a: string, b: string, c: string)
    ensures TextLeq(a, b) || TextLeq(b, a)
    ensures TextLeq(a, b) && TextLeq(b, a) ==> a == b
    ensures TextLeq(a, b) && TextLeq(b, c) ==> TextLeq(a, c)
    decreases |a| + |b| + |c|
  {
    if a != "" && b != "" {
      TextLeqOrder(a[1..], b[1..], if c == "" then c else c[1..]);
      assert a == [a[0]] + a[1..] && b == [b[0]] + b[1..];
    }
  }

  /** The cells are totally ordered, which is what an ORDER BY relies on. */
  lemma LeqOrder(a: Cell, b: Cell, c: Cell)
    ensures Leq(a, b) || Leq(b, a)
    ensures Leq(a, b) && Leq(b, a) ==> a == b
    ensures Leq(a, b) && Leq(b, c) ==> Leq(a, c)
  {
    if a.Text? && b.Text? {
      TextLeqOrder(a.s, b.s, if c.Text? then c.s else "");
    }
  }

  function Digits(n: nat): (s: string)
    ensures |s| > 0
  {
    if n < 10 then [('0' as int + n) as char] else Digits(n / 10) + Digits(n % 10)
  }

  /** The text form a pattern reads a cell in. */
  function TextOf(c: Cell): string
    requires !c.Null?
  {
    match c
    case Flag(b) => if b then "1" else "0"
    case Num(n) => if n < 0 then "-" + Digits(-n) else Digits(n)
    case Text(s) => s
  }

  /** A name longer than any of names. */
  function Longer(names: seq<string>): string {
    if names == [] then "x" else names[0] + Longer(names[1..])
  }

  lemma {:induction false} LongerIsLonger(names: seq<string>)
    ensures forall n :: n in names ==> |n| < |Longer(names)|
    ensures |Longer(names)| > 0
  {
    if names != [] { LongerIsLonger(names[1..]); }
  }
}
