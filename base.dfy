/**
 * Values and sequence helpers shared by the model of the chat backend:
 * optional values, identifier types, the JavaScript array idioms the backend
 * uses (`filter`, `find`, `includes`, Mongo's `$addToSet`) and the JavaScript
 * `String.prototype.trim`.
 */
module Base {

  datatype Option<T> = None | Some(value: T)

  /** Identifiers are the string forms of Mongo ObjectIds and socket.io ids.
      The empty string stands for a missing (falsy) value in an event payload. */
  type UserId = string
  type ChatId = string
  type MessageId = string
  type SocketId = string

  /** JavaScript truthiness of an optional string: present and not empty. */
  predicate Truthy(o: Option<string>) {
    o.Some? && o.value != ""
  }

  predicate NoDup<T(==)>(xs: seq<T>) {
    forall i, j :: 0 <= i < j < |xs| ==> xs[i] != xs[j]
  }

  /** How many times `x` occurs in `xs`. */
  function Occurrences<T(==)>(xs: seq<T>, x: T): (n: nat)
    ensures n <= |xs|
    ensures n == 0 <==> x !in xs
  {
    if xs == [] then 0 else (if xs[0] == x then 1 else 0) + Occurrences(xs[1..], x)
  }

  lemma {:induction false} OccurrencesAppend<T>(xs: seq<T>, y: T, x: T)
    ensures Occurrences(xs + [y], x) == Occurrences(xs, x) + (if y == x then 1 else 0)
  {
    if xs == [] {
      assert (xs + [y])[1..] == [];
    } else {
      assert (xs + [y])[1..] == xs[1..] + [y];
      OccurrencesAppend(xs[1..], y, x);
    }
  }

  lemma {:induction false} NoDupOccurrences<T>(xs: seq<T>, x: T)
    requires NoDup(xs)
    ensures Occurrences(xs, x) <= 1
  {
    if xs != [] {
      assert NoDup(xs[1..]) by {
        forall i, j | 0 <= i < j < |xs[1..]| ensures xs[1..][i] != xs[1..][j] {
          assert xs[1..][i] == xs[i + 1] && xs[1..][j] == xs[j + 1];
        }
      }
      NoDupOccurrences(xs[1..], x);
      if xs[0] == x {
        assert x !in xs[1..] by {
          forall k | 0 <= k < |xs[1..]| ensures xs[1..][k] != x {
            assert xs[1..][k] == xs[k + 1];
          }
        }
      }
    }
  }

  lemma NoDupCons<T>(x: T, xs: seq<T>)
    requires x !in xs && NoDup(xs)
    ensures NoDup([x] + xs)
  {
    forall i, j | 0 <= i < j < |[x] + xs| ensures ([x] + xs)[i] != ([x] + xs)[j] {
      assert ([x] + xs)[j] == xs[j - 1];
      if i > 0 { assert ([x] + xs)[i] == xs[i - 1]; }
    }
  }

  lemma NoDupSnoc<T>(xs: seq<T>, x: T)
    requires x !in xs
    ensures NoDup(xs) ==> NoDup(xs + [x])
  {
  }

  /** `xs.filter(y => y !== x)`: every occurrence of `x` removed, order kept. */
  function Without<T(==,!new)>(xs: seq<T>, x: T): (r: seq<T>)
    ensures forall y :: y in r <==> y in xs && y != x
    ensures |r| <= |xs|
  {
    if xs == [] then []
    else if xs[0] == x then Without(xs[1..], x)
    else [xs[0]] + Without(xs[1..], x)
  }

  /** Filtering out a value that does not occur changes nothing. */
  lemma {:induction false} WithoutAbsent<T(!new)>(xs: seq<T>, x: T)
    ensures x !in xs ==> Without(xs, x) == xs
  {
    if xs != [] && x !in xs {
      assert x !in xs[1..];
      WithoutAbsent(xs[1..], x);
    }
  }

  lemma {:induction false} WithoutConcat<T(!new)>(a: seq<T>, b: seq<T>, x: T)
    ensures Without(a + b, x) == Without(a, x) + Without(b, x)
  {
    if a == [] {
      assert a + b == b;
    } else {
      assert (a + b)[1..] == a[1..] + b;
      WithoutConcat(a[1..], b, x);
    }
  }

  /** Appending `x` and then filtering `x` out is filtering it out of the original. */
  lemma WithoutAppended<T(!new)>(xs: seq<T>, x: T)
    ensures Without(xs + [x], x) == Without(xs, x)
  {
    WithoutConcat(xs, [x], x);
    assert Without([x], x) == [];
  }

  lemma {:induction false} WithoutNoDup<T(!new)>(xs: seq<T>, x: T)
    ensures NoDup(xs) ==> NoDup(Without(xs, x))
  {
    if xs != [] && NoDup(xs) {
      assert NoDup(xs[1..]) by {
        forall i, j | 0 <= i < j < |xs[1..]| ensures xs[1..][i] != xs[1..][j] {
          assert xs[1..][i] == xs[i + 1] && xs[1..][j] == xs[j + 1];
        }
      }
      WithoutNoDup(xs[1..], x);
      if xs[0] != x {
        assert xs[0] !in xs[1..] by {
          forall k | 0 <= k < |xs[1..]| ensures xs[1..][k] != xs[0] {
            assert xs[1..][k] == xs[k + 1];
          }
        }
        NoDupCons(xs[0], Without(xs[1..], x));
      }
    }
  }

  /** Mongo's `$addToSet`, and the `if (!xs.includes(x)) xs.push(x)` idiom. */
  function AddToSet<T(==,!new)>(xs: seq<T>, x: T): (r: seq<T>)
    ensures forall y :: y in r <==> y in xs || y == x
    ensures x in xs ==> r == xs
    ensures NoDup(xs) ==> NoDup(r)
    ensures Occurrences(xs, x) <= 1 ==> Occurrences(r, x) == 1
  {
    if x in xs then xs
    else
      OccurrencesAppend(xs, x, x);
      NoDupSnoc(xs, x);
      xs + [x]
  }

  /** `xs.filter(x => s.has(x))`: the elements of `xs` that belong to `s`,
      in order. */
  function Among<T(==,!new)>(xs: seq<T>, s: set<T>): (r: seq<T>)
    ensures forall x :: x in r <==> x in xs && x in s
    ensures |r| <= |xs|
  {
    if xs == [] then []
    else (if xs[0] in s then [xs[0]] else []) + Among(xs[1..], s)
  }

  /** The filter keeps list order: it distributes over concatenation, and
      keeps a list whose elements all belong to the set as it is. */
  lemma {:induction false} AmongConcat<T(!new)>(a: seq<T>, b: seq<T>, s: set<T>)
    ensures Among(a + b, s) == Among(a, s) + Among(b, s)
  {
    if a == [] {
      assert a + b == b;
    } else {
      assert (a + b)[1..] == a[1..] + b;
      AmongConcat(a[1..], b, s);
    }
  }

  lemma {:induction false} AmongAll<T(!new)>(xs: seq<T>, s: set<T>)
    requires forall x :: x in xs ==> x in s
    ensures Among(xs, s) == xs
  {
    if xs != [] {
      AmongAll(xs[1..], s);
    }
  }

  /** `xs.find(y => y !== x)`: the first element different from `x`. */
  function FirstOther<T(==)>(xs: seq<T>, x: T): (r: Option<T>)
    ensures r.None? <==> forall i :: 0 <= i < |xs| ==> xs[i] == x
    ensures r.Some? ==> r.value in xs && r.value != x
    ensures r.Some? ==> exists i :: 0 <= i < |xs| && xs[i] == r.value && forall j :: 0 <= j < i ==> xs[j] == x
  {
    if xs == [] then None
    else if xs[0] != x then Some(xs[0])
    else FirstOther(xs[1..], x)
  }

  /** `s.startsWith(p)`. */
  predicate StartsWith(s: string, p: string) {
    |p| <= |s| && s[..|p|] == p
  }

  /** The characters that JavaScript's `String.prototype.trim` removes: the
      WhiteSpace and LineTerminator code points of ECMA-262 (section 12.2 and
      12.3 of the 2023 edition). */
  predicate IsJsSpace(c: char) {
    || c == '\t' || c == '\n' || c == '\U{B}' || c == '\U{C}' || c == '\r' || c == ' '
    || c == '\U{A0}' || c == '\U{1680}' || ('\U{2000}' <= c <= '\U{200A}')
    || c == '\U{2028}' || c == '\U{2029}' || c == '\U{202F}' || c == '\U{205F}'
    || c == '\U{3000}' || c == '\U{FEFF}'
  }

  function TrimStart(s: string): (r: string)
    ensures |r| <= |s| && r == s[|s| - |r|..]
    ensures r != [] ==> !IsJsSpace(r[0])
    ensures forall i :: 0 <= i < |s| - |r| ==> IsJsSpace(s[i])
  {
    if s != [] && IsJsSpace(s[0]) then TrimStart(s[1..]) else s
  }

  function TrimEnd(s: string): (r: string)
    ensures |r| <= |s| && r == s[..|r|]
    ensures r != [] ==> !IsJsSpace(r[|r| - 1])
    ensures forall i :: |r| <= i < |s| ==> IsJsSpace(s[i])
  {
    if s != [] && IsJsSpace(s[|s| - 1]) then TrimEnd(s[..|s| - 1]) else s
  }

  /** `s.trim()`: the longest infix of `s` that neither starts nor ends with
      white space; it is empty exactly when `s` is all white space. */
  function Trim(s: string): (r: string)
    ensures r == "" <==> forall i :: 0 <= i < |s| ==> IsJsSpace(s[i])
    ensures r != "" ==> !IsJsSpace(r[0]) && !IsJsSpace(r[|r| - 1])
    ensures |r| <= |s|
    ensures exists i, j :: 0 <= i <= j <= |s| && r == s[i..j]
                           && (forall k :: 0 <= k < i ==> IsJsSpace(s[k]))
                           && (forall k :: j <= k < |s| ==> IsJsSpace(s[k]))
  {
    var t := TrimStart(s);
    var r := TrimEnd(t);
    TrimmedIsInfix(s, t, r);
    r
  }

  /** A white-space suffix cut from a white-space-prefix-free suffix leaves
      an infix with only white space around it. */
  lemma TrimmedIsInfix(s: string, t: string, r: string)
    requires |t| <= |s| && t == s[|s| - |t|..]
    requires forall k :: 0 <= k < |s| - |t| ==> IsJsSpace(s[k])
    requires |r| <= |t| && r == t[..|r|]
    requires forall k :: |r| <= k < |t| ==> IsJsSpace(t[k])
    ensures exists i, j :: 0 <= i <= j <= |s| && r == s[i..j]
                           && (forall k :: 0 <= k < i ==> IsJsSpace(s[k]))
                           && (forall k :: j <= k < |s| ==> IsJsSpace(s[k]))
  {
    var i, j := |s| - |t|, |s| - |t| + |r|;
    assert r == s[i..j];
    forall k | j <= k < |s| ensures IsJsSpace(s[k]) {
      assert s[k] == t[k - i];
    }
  }
}
