/** Values and sequence facts shared by the three snapshots of the catalog. */
module Common {

  datatype Option<+T> = None | Some(value: T)

  /** What a Python call does: it returns a value or it raises an exception with a message. */
  datatype Outcome<+T> = Returned(value: T) | Raised(message: string)

  /** A Python float, kept opaque: it is stored, copied and rendered, never computed with. */
  datatype Float = Float(repr: string)

  const ZeroFloat: Float := Float("0.0")

  // ---------------------------------------------------------------------------
  // Strings

  /** Case folding on one character. Only A-Z is folded; see README. */
  function LowerChar(c: char): char
  {
    if 'A' <= c <= 'Z' then (c as int + 32) as char else c
  }

  /** Stand-in for Python's `str.lower`. No property proved here depends on its body. */
  function Lower(s: string): (r: string)
    ensures |r| == |s|
  {
    seq(|s|, i requires 0 <= i < |s| => LowerChar(s[i]))
  }

  /** The characters for which Python's `str.isspace` holds, i.e. what `str.strip()` removes. */
  predicate IsSpace(c: char)
  {
    || c == ' ' || c == '\t' || c == '\n' || c == '\r'
    || c == '\U{0B}' || c == '\U{0C}'
    || ('\U{1C}' <= c <= '\U{1F}')
    || c == '\U{85}' || c == '\U{A0}' || c == '\U{1680}'
    || ('\U{2000}' <= c <= '\U{200A}')
    || c == '\U{2028}' || c == '\U{2029}' || c == '\U{202F}' || c == '\U{205F}' || c == '\U{3000}'
  }

  predicate IsBlank(s: string)
  {
    forall i :: 0 <= i < |s| ==> IsSpace(s[i])
  }

  function TrimStart(s: string): (r: string)
    ensures |r| <= |s| && r == s[|s| - |r|..] && IsBlank(s[..|s| - |r|])
    ensures r == [] || !IsSpace(r[0])
  {
    if s != [] && IsSpace(s[0]) then TrimStart(s[1..]) else s
  }

  function TrimEnd(s: string): (r: string)
    ensures |r| <= |s| && r == s[..|r|] && IsBlank(s[|r|..])
    ensures r == [] || !IsSpace(r[|r| - 1])
  {
    if s != [] && IsSpace(s[|s| - 1]) then TrimEnd(s[..|s| - 1]) else s
  }

  /** Python's `str.strip()` without arguments. */
  function Strip(s: string): string
  {
    TrimEnd(TrimStart(s))
  }

  /**
   * What `Strip` returns: the slice of `s` that starts where `TrimStart` stops; it neither starts
   * nor ends with white space, and there is only white space before and after it.
   */
  lemma StripTrims(s: string, t: string, r: string)
    requires t == TrimStart(s) && r == Strip(s)
    ensures var i := |s| - |t|;
      0 <= i <= |s| - |r| && r == s[i..i + |r|] && IsBlank(s[..i]) && IsBlank(s[i + |r|..])
    ensures r == [] || (!IsSpace(r[0]) && !IsSpace(r[|r| - 1]))
  {
    SuffixPrefix(s, t, r);
  }

  /** A prefix `r` of a suffix `t` of `s` is a slice of `s`. */
  lemma SuffixPrefix(s: string, t: string, r: string)
    requires |r| <= |t| <= |s| && t == s[|s| - |t|..] && r == t[..|r|]
    ensures r == s[|s| - |t|..|s| - |t| + |r|] && t[|r|..] == s[|s| - |t| + |r|..]
  {
  }

  lemma {:induction false} TrimStartEmpty(s: string)
    ensures TrimStart(s) == [] <==> IsBlank(s)
  {
    if s != [] && IsSpace(s[0]) {
      TrimStartEmpty(s[1..]);
      assert IsBlank(s) <==> IsBlank(s[1..]) by {
        assert forall i :: 1 <= i < |s| ==> s[i] == s[1..][i - 1];
      }
    }
  }

  /** `s.strip()` is empty, hence falsy, exactly when every character of `s` is white space. */
  lemma StripEmpty(s: string)
    ensures Strip(s) == [] <==> IsBlank(s)
  {
    TrimStartEmpty(s);
    TrimEndEmpty(TrimStart(s));
    var t := TrimStart(s);
    if t != [] {
      assert !IsSpace(t[0]);
    }
  }

  lemma {:induction false} TrimEndEmpty(s: string)
    ensures TrimEnd(s) == [] <==> IsBlank(s)
  {
    if s != [] && IsSpace(s[|s| - 1]) {
      var p := s[..|s| - 1];
      TrimEndEmpty(p);
      assert IsBlank(s) <==> IsBlank(p) by {
        assert forall i :: 0 <= i < |p| ==> s[i] == p[i];
      }
    }
  }

  // ---------------------------------------------------------------------------
  // Decimal rendering of integers (Python's `str(int)`)

  function DigitChar(d: nat): char
    requires d < 10
  {
    "0123456789"[d]
  }

  predicate IsDigit(c: char)
  {
    '0' <= c <= '9'
  }

  function NatToString(n: nat): (r: string)
    ensures r != [] && forall i :: 0 <= i < |r| ==> IsDigit(r[i])
  {
    if n < 10 then [DigitChar(n)] else NatToString(n / 10) + [DigitChar(n % 10)]
  }

  /** Python's `str(n)` for an integer: an optional minus sign, then decimal digits. */
  function IntToString(n: int): (r: string)
    ensures r != [] && (r[0] == '-' <==> n < 0)
    ensures forall i :: 0 < i < |r| ==> IsDigit(r[i])
  {
    if n < 0 then "-" + NatToString(-n) else NatToString(n)
  }

  /** Reads back a string of decimal digits. */
  function DecimalValue(s: string): nat
    requires forall i :: 0 <= i < |s| ==> IsDigit(s[i])
  {
    if s == [] then 0
    else
      assert IsDigit(s[|s| - 1]);
      10 * DecimalValue(s[..|s| - 1]) + (s[|s| - 1] as int - '0' as int)
  }

  function ParseInt(s: string): int
    requires s != [] && forall i :: 0 < i < |s| ==> IsDigit(s[i])
    requires s[0] == '-' || IsDigit(s[0])
  {
    if s[0] == '-' then -(DecimalValue(s[1..]) as int) else DecimalValue(s)
  }

  lemma {:induction false} NatToStringRoundTrip(n: nat)
    ensures DecimalValue(NatToString(n)) == n
  {
    if n >= 10 {
      NatToStringRoundTrip(n / 10);
      var s := NatToString(n);
      assert s[..|s| - 1] == NatToString(n / 10);
    }
  }

  /** A minus sign in front of decimal digits reads back as the negated value of the digits. */
  lemma ParseNegative(digits: string)
    requires digits != [] && forall i :: 0 <= i < |digits| ==> IsDigit(digits[i])
    ensures var s := ['-'] + digits;
      (forall i :: 0 < i < |s| ==> IsDigit(s[i])) && ParseInt(s) == -(DecimalValue(digits) as int)
  {
    var s := ['-'] + digits;
    assert s[1..] == digits;
    assert forall i :: 0 < i < |s| ==> s[i] == digits[i - 1];
  }

  /** The rendering of an integer determines it: reading it back gives the same number. */
  lemma IntToStringRoundTrip(n: int)
    ensures var s := IntToString(n);
      s != [] && (s[0] == '-' || IsDigit(s[0])) && (forall i :: 0 < i < |s| ==> IsDigit(s[i]))
      && ParseInt(s) == n
  {
    if n < 0 {
      NatToStringRoundTrip(-n);
      ParseNegative(NatToString(-n));
    } else {
      NatToStringRoundTrip(n);
    }
  }

  // ---------------------------------------------------------------------------
  // First-match search over a sequence of keys

  /** How a lookup compares a stored field with the query. */
  datatype MatchMode = Exact | CaseFolded

  predicate KeyMatches(mode: MatchMode, key: string, query: string)
  {
    match mode
    case Exact => key == query
    case CaseFolded => Lower(key) == Lower(query)
  }

  /** The position of the first key that matches `query`, scanning front to back. */
  function FirstMatch(mode: MatchMode, keys: seq<string>, query: string): (r: Option<nat>)
    ensures r.Some? ==> r.value < |keys| && KeyMatches(mode, keys[r.value], query)
    ensures r.Some? ==> forall k :: 0 <= k < r.value ==> !KeyMatches(mode, keys[k], query)
    ensures r.None? <==> forall k :: 0 <= k < |keys| ==> !KeyMatches(mode, keys[k], query)
  {
    if keys == [] then None
    else if KeyMatches(mode, keys[0], query) then Some(0)
    else
      match FirstMatch(mode, keys[1..], query)
      case None => None
      case Some(j) => Some(j + 1)
  }

  /** A position that matches, with no match before it, is the one FirstMatch finds. */
  lemma FirstMatchAt(mode: MatchMode, keys: seq<string>, query: string, i: nat)
    requires i < |keys| && KeyMatches(mode, keys[i], query)
    requires forall k :: 0 <= k < i ==> !KeyMatches(mode, keys[k], query)
    ensures FirstMatch(mode, keys, query) == Some(i)
  {
  }

  /** Keys are pairwise different. */
  predicate Distinct(s: seq<string>)
  {
    forall i, j :: 0 <= i < j < |s| ==> s[i] != s[j]
  }

  /** With distinct keys, an exact lookup finds the one position holding the key. */
  lemma DistinctExactMatch(s: seq<string>, i: nat)
    requires Distinct(s) && i < |s|
    ensures FirstMatch(Exact, s, s[i]) == Some(i)
  {
    FirstMatchAt(Exact, s, s[i], i);
  }

  lemma DistinctAppend(s: seq<string>, x: string)
    requires Distinct(s) && x !in s
    ensures Distinct(s + [x])
  {
  }

  /** The set of keys a sequence holds. */
  function Elements(s: seq<string>): set<string>
  {
    set k | k in s
  }

  lemma ElementsAppend(s: seq<string>, x: string)
    ensures Elements(s + [x]) == Elements(s) + {x}
  {
  }

  // ---------------------------------------------------------------------------
  // Removing one element, keeping the order of the others

  function RemoveAt<T>(s: seq<T>, i: nat): (r: seq<T>)
    requires i < |s|
    ensures |r| == |s| - 1
    ensures forall k :: 0 <= k < i ==> r[k] == s[k]
    ensures forall k :: i <= k < |r| ==> r[k] == s[k + 1]
  {
    s[..i] + s[i + 1..]
  }

  /** Python's `list.index(x)`: the position of the first element equal to `x`. */
  function IndexOf<T(==)>(s: seq<T>, x: T): (i: nat)
    requires x in s
    ensures i < |s| && s[i] == x && x !in s[..i]
  {
    if s[0] == x then 0 else 1 + IndexOf(s[1..], x)
  }

  /** Removing a key from a sequence of distinct keys keeps them distinct and drops that key. */
  lemma DistinctRemoveAt(s: seq<string>, i: nat)
    requires Distinct(s) && i < |s|
    ensures Distinct(RemoveAt(s, i))
    ensures s[i] !in RemoveAt(s, i)
  {
    var r := RemoveAt(s, i);
    forall a, b | 0 <= a < b < |r| ensures r[a] != r[b] {
      var a' := if a < i then a else a + 1;
      var b' := if b < i then b else b + 1;
      assert r[a] == s[a'] && r[b] == s[b'];
    }
    forall k | 0 <= k < |r| ensures r[k] != s[i] {
      var k' := if k < i then k else k + 1;
      assert r[k] == s[k'];
    }
  }

  /** Removing the element at `i` from distinct keys removes exactly that key from the key set. */
  lemma ElementsRemoveAt(s: seq<string>, i: nat)
    requires Distinct(s) && i < |s|
    ensures Elements(RemoveAt(s, i)) == Elements(s) - {s[i]}
  {
    var r := RemoveAt(s, i);
    DistinctRemoveAt(s, i);
    forall x | x in Elements(s) - {s[i]} ensures x in Elements(r) {
      var j :| 0 <= j < |s| && s[j] == x;
      assert j != i;
      if j < i {
        assert r[j] == x;
      } else {
        assert r[j - 1] == x;
      }
    }
  }

  // ---------------------------------------------------------------------------
  // Projections of a sequence onto one field

  function Project<T>(s: seq<T>, f: T -> string): (r: seq<string>)
    ensures |r| == |s| && forall k :: 0 <= k < |s| ==> r[k] == f(s[k])
  {
    seq(|s|, k requires 0 <= k < |s| => f(s[k]))
  }

  lemma ProjectAppend<T>(s: seq<T>, x: T, f: T -> string)
    ensures Project(s + [x], f) == Project(s, f) + [f(x)]
  {
  }

  lemma ProjectRemoveAt<T>(s: seq<T>, i: nat, f: T -> string)
    requires i < |s|
    ensures Project(RemoveAt(s, i), f) == RemoveAt(Project(s, f), i)
  {
  }

  // ---------------------------------------------------------------------------
  // Counting flags

  /** How many flags are set (Python's `sum(1 for b in books if b.is_borrowed)`). */
  function CountTrue(s: seq<bool>): (n: nat)
    ensures n <= |s|
  {
    if s == [] then 0 else (if s[0] then 1 else 0) + CountTrue(s[1..])
  }

  /** The count agrees with the multiplicity of `true`, an independent definition. */
  lemma {:induction false} CountTrueMultiset(s: seq<bool>)
    ensures CountTrue(s) == multiset(s)[true]
  {
    if s != [] {
      CountTrueMultiset(s[1..]);
      assert s == [s[0]] + s[1..];
      assert multiset(s) == multiset([s[0]]) + multiset(s[1..]);
    }
  }

  /** Setting one cleared flag raises the count by exactly one. */
  lemma {:induction false} CountTrueSet(s: seq<bool>, k: nat)
    requires k < |s| && !s[k]
    ensures CountTrue(s[k := true]) == CountTrue(s) + 1
  {
    if k > 0 {
      CountTrueSet(s[1..], k - 1);
      assert s[k := true][1..] == s[1..][k - 1 := true];
    } else {
      assert s[k := true][1..] == s[1..];
    }
  }

  /** Clearing one set flag lowers the count by exactly one. */
  lemma {:induction false} CountTrueClear(s: seq<bool>, k: nat)
    requires k < |s| && s[k]
    ensures CountTrue(s[k := false]) + 1 == CountTrue(s)
  {
    if k > 0 {
      CountTrueClear(s[1..], k - 1);
      assert s[k := false][1..] == s[1..][k - 1 := false];
    } else {
      assert s[k := false][1..] == s[1..];
    }
  }
}
