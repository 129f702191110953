/** Key layout of the task table.

    Every task lives under the key `tarefa:<id>`, the id written in decimal as
    Python formats an int.  The listing recovers the id with
    `key.split(':')[1]`, and the edit and delete routes read it back as an
    integer.  This module models those three text operations and proves that
    they fit together. */
module TaskKeys {

  datatype Option<T> = None | Some(value: T)

  /** The namespace part of every task key. */
  const Namespace: string := "tarefa"
  const Separator: char := ':'
  /** The scan pattern `tarefa:*` matches exactly the keys that start with this. */
  const Prefix: string := Namespace + [Separator]

  predicate IsDigit(ch: char) {
    '0' <= ch <= '9'
  }

  predicate AllDigits(s: string) {
    forall i :: 0 <= i < |s| ==> IsDigit(s[i])
  }

  function DigitValue(ch: char): (d: nat)
    requires IsDigit(ch)
    ensures d < 10
  {
    ch as int - '0' as int
  }

  function DigitChar(d: nat): (ch: char)
    requires d < 10
    ensures IsDigit(ch) && DigitValue(ch) == d
  {
    ('0' as int + d) as char
  }

  /** Decimal text of `n` as Python's `str(n)` writes it: digits only, and a
      leading zero only for zero itself. */
  function Decimal(n: nat): (s: string)
    ensures |s| >= 1 && AllDigits(s)
    ensures s[0] == '0' <==> n == 0
    decreases n
  {
    if n < 10 then [DigitChar(n)] else Decimal(n / 10) + [DigitChar(n % 10)]
  }

  /** Value of a non-empty run of decimal digits, as the `<int:...>` route
      parameter reads an id; None for the empty text or one with a non-digit. */
  function ParseDecimal(s: string): (r: Option<nat>)
    ensures r.Some? <==> |s| >= 1 && AllDigits(s)
    decreases |s|
  {
    if |s| == 0 || !IsDigit(s[|s| - 1]) then None
    else if |s| == 1 then Some(DigitValue(s[0]))
    else
      match ParseDecimal(s[..|s| - 1])
      case None => None
      case Some(v) => Some(10 * v + DigitValue(s[|s| - 1]))
  }

  /** Reading back the decimal text of an id gives the id. */
  lemma {:induction false} ParseDecimalOfDecimal(n: nat)
    ensures ParseDecimal(Decimal(n)) == Some(n)
    decreases n
  {
    if n >= 10 {
      ParseDecimalOfDecimal(n / 10);
      var s := Decimal(n);
      assert s[..|s| - 1] == Decimal(n / 10);
    }
  }

  predicate IsTaskKey(k: string) {
    |Prefix| <= |k| && k[..|Prefix|] == Prefix
  }

  /** The key `tarefa:<id>` under which task `id` is stored. */
  function KeyOf(id: nat): (k: string)
    ensures IsTaskKey(k) && k[|Prefix|..] == Decimal(id)
  {
    Prefix + Decimal(id)
  }

  /** Distinct ids give distinct keys, so a fresh id never lands on another
      task's record. */
  lemma KeyOfInjective(a: nat, b: nat)
    requires KeyOf(a) == KeyOf(b)
    ensures a == b
  {
    ParseDecimalOfDecimal(a);
    ParseDecimalOfDecimal(b);
  }

  /** `Join(parts, c)` is Python's `c.join(parts)`. */
  function Join(parts: seq<string>, c: char): string
    requires |parts| >= 1
    decreases |parts|
  {
    if |parts| == 1 then parts[0] else parts[0] + [c] + Join(parts[1..], c)
  }

  /** Python's `s.split(c)`: the pieces between separators, empty ones kept.
      The pieces hold no separator and joining them back gives `s`. */
  function Split(s: string, c: char): (parts: seq<string>)
    ensures |parts| >= 1
    ensures forall i :: 0 <= i < |parts| ==> c !in parts[i]
    ensures Join(parts, c) == s
    decreases |s|
  {
    if |s| == 0 then [""]
    else
      var rest := Split(s[1..], c);
      if s[0] == c then
        assert s == [c] + s[1..];
        [""] + rest
      else
        assert s == [s[0]] + s[1..];
        [[s[0]] + rest[0]] + rest[1..]
  }

  lemma {:induction false} SplitWithoutSeparator(s: string, c: char)
    requires c !in s
    ensures Split(s, c) == [s]
    decreases |s|
  {
    if |s| > 0 {
      SplitWithoutSeparator(s[1..], c);
      assert [s[0]] + s[1..] == s;
    }
  }

  lemma {:induction false} SplitAfterFirst(a: string, c: char, b: string)
    requires c !in a
    ensures Split(a + [c] + b, c) == [a] + Split(b, c)
    decreases |a|
  {
    var s := a + [c] + b;
    if |a| == 0 {
      assert s[1..] == b;
    } else {
      SplitAfterFirst(a[1..], c, b);
      assert s[1..] == a[1..] + [c] + b;
      assert [a[0]] + a[1..] == a;
    }
  }

  /** The first piece of a join is a prefix of it, followed by the separator
      when more pieces come after it. */
  lemma JoinHead(parts: seq<string>, c: char)
    requires |parts| >= 1
    ensures |parts[0]| <= |Join(parts, c)|
    ensures Join(parts, c)[..|parts[0]|] == parts[0]
    ensures |parts| == 1 ==> Join(parts, c) == parts[0]
    ensures |parts| > 1 ==> |parts[0]| < |Join(parts, c)| && Join(parts, c)[|parts[0]|] == c
  {
    if |parts| > 1 {
      assert Join(parts, c) == parts[0] + [c] + Join(parts[1..], c);
    }
  }

  lemma SplitTaskKey(k: string)
    requires IsTaskKey(k)
    ensures Split(k, Separator) == [Namespace] + Split(k[|Prefix|..], Separator)
  {
    assert k == Namespace + [Separator] + k[|Prefix|..];
    SplitAfterFirst(Namespace, Separator, k[|Prefix|..]);
  }

  /** The id the listing shows for a task key, `key.split(':')[1]`: the text
      after the first ':' up to the next ':' or the end of the key. */
  function ListedId(k: string): (id: string)
    requires IsTaskKey(k)
    ensures Separator !in id
    ensures |Prefix| + |id| <= |k| && k[|Prefix|..|Prefix| + |id|] == id
    ensures |Prefix| + |id| == |k| || k[|Prefix| + |id|] == Separator
  {
    SplitTaskKey(k);
    var tail := k[|Prefix|..];
    var parts := Split(tail, Separator);
    JoinHead(parts, Separator);
    assert k[|Prefix|..|Prefix| + |parts[0]|] == tail[..|parts[0]|];
    Split(k, Separator)[1]
  }

  /** The id listed for the key of task `n` is the decimal text of `n`, and the
      edit and delete routes read it back as `n`: the listing round-trips the
      key format used at creation. */
  lemma ListedIdOfKey(n: nat)
    ensures ListedId(KeyOf(n)) == Decimal(n)
    ensures ParseDecimal(ListedId(KeyOf(n))) == Some(n)
    ensures KeyOf(ParseDecimal(ListedId(KeyOf(n))).value) == KeyOf(n)
  {
    var d := Decimal(n);
    SplitTaskKey(KeyOf(n));
    SplitWithoutSeparator(d, Separator);
    ParseDecimalOfDecimal(n);
  }
}
