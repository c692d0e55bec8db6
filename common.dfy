/** Values shared by every part of the ORM model: an optional value, the
    outcome of an operation that may raise, the exceptions the table raises,
    and the ASCII string helpers PHP's strtolower and ucfirst stand for. */
module Common {

  datatype Option<T> = None | Some(value: T)

  /** The exceptions Cake\ORM\Table raises on the paths this model covers. */
  datatype Error =
    | UnknownAssociation(alias: string)           // InvalidArgumentException: "<alias> is not associated"
    | MissingPrimaryKey                           // InvalidArgumentException: "A primary key value is needed for updating"
    | UnknownMethod(name: string)                 // BadMethodCallException from __call
    | NotEnoughArguments(got: nat, required: nat) // Cake\Error\Exception from the magic finder
    | MixedAndOr                                  // Cake\Error\Exception from the magic finder

  /** A PHP call either returns a value or raises. */
  datatype Outcome<T> = Returned(value: T) | Raised(error: Error)

  /** strtolower on one character, in the C locale: only A-Z change. */
  function LowerChar(c: char): char {
    if 'A' <= c <= 'Z' then (c as int + 32) as char else c
  }

  /** ucfirst on one character. */
  function UpperChar(c: char): char {
    if 'a' <= c <= 'z' then (c as int - 32) as char else c
  }

  function Lower(s: string): string {
    seq(|s|, i requires 0 <= i < |s| => LowerChar(s[i]))
  }

  function UpperFirst(s: string): string {
    if s == [] then s else [UpperChar(s[0])] + s[1..]
  }

  /** Folding twice is folding once, so a key already stored in lower case
      is found again by its own name. */
  lemma LowerIsIdempotent(s: string)
    ensures Lower(Lower(s)) == Lower(s)
  {
  }

  /** A name with no capital letter is its own lower-cased key. */
  lemma LowerKeepsLowerCase(s: string)
    requires forall i :: 0 <= i < |s| ==> !('A' <= s[i] <= 'Z')
    ensures Lower(s) == s
  {
  }

  /** Regrouping a concatenation, for the statement logs that grow by parts. */
  lemma AppendAssoc<T>(a: seq<T>, b: seq<T>, c: seq<T>)
    ensures a + (b + c) == a + b + c
  {
  }

  lemma AppendAssoc4<T>(a: seq<T>, b: seq<T>, c: seq<T>, d: seq<T>)
    ensures a + (b + c + d) == a + b + c + d
  {
  }

  /** The decimal spelling PHP gives an integer array key. */
  function Decimal(n: nat): (r: string)
    ensures |r| > 0
    decreases n
  {
    if n < 10 then [DigitChar(n)] else Decimal(n / 10) + [DigitChar(n % 10)]
  }

  function DigitChar(d: nat): char
    requires d < 10
  {
    "0123456789"[d]
  }
}
