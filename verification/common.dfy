/** Shared vocabulary of the inventory model: optional values, the service
    failures, Java's 32-bit integers and the string tests used by the queries. */
module Common {

  /** A nullable Java reference or an `Optional` result. */
  datatype Option<+T> = None | Some(value: T)

  /** The failures the services raise (each a `RuntimeException` with a message
      in the source; only the kind is kept here). */
  datatype Error =
    | NotFound           // no record with the given id
    | DuplicateKey       // the SKU or category name is already taken
    | InvalidQuantity    // a negative (or, for added stock, overflowing) amount
    | InsufficientStock  // removing more units than are in stock

  datatype Result<+T> = Ok(value: T) | Err(error: Error)

  const IntMin: int := -0x8000_0000
  const IntMax: int := 0x7fff_ffff

  /** Java's `int` / `Integer`. */
  type Int32 = x: int | IntMin <= x <= IntMax

  /** Java's `+` on `int`: the mathematical sum reduced modulo 2^32 into the
      32-bit range. */
  function WrapAdd(a: Int32, b: Int32): (r: Int32)
    ensures IntMin <= a + b <= IntMax ==> r == a + b
    ensures a + b > IntMax ==> r == a + b - 0x1_0000_0000 && r < 0
    ensures a + b < IntMin ==> r == a + b + 0x1_0000_0000 && r >= 0
  {
    (a + b - IntMin) % 0x1_0000_0000 + IntMin
  }

  /** `s` occurs as a contiguous run of `text` (SQL `LIKE '%s%'` when `s`
      holds no wildcard characters). */
  predicate Contains(text: string, s: string) {
    exists i :: 0 <= i <= |text| && OccursAt(text, s, i)
  }

  /** `s` occurs in `text` starting at position `i`. */
  predicate OccursAt(text: string, s: string, i: int) {
    0 <= i <= |text| - |s| && forall j :: 0 <= j < |s| ==> text[i + j] == s[j]
  }

  /** ASCII lower-casing of one character; every other character is kept. */
  function LowerChar(c: char): char {
    if 'A' <= c <= 'Z' then (c as int - 'A' as int + 'a' as int) as char else c
  }

  /** Lower-cases a string character by character. */
  function Lower(s: string): (r: string)
    ensures |r| == |s|
    ensures forall i :: 0 <= i < |s| ==> r[i] == LowerChar(s[i])
  {
    if s == [] then [] else [LowerChar(s[0])] + Lower(s[1..])
  }

  /** Java's `String.equalsIgnoreCase` restricted to ASCII case mappings: same
      length, and each pair of characters is equal after case folding. */
  predicate EqualsIgnoreCase(a: string, b: string) {
    |a| == |b| && forall i :: 0 <= i < |a| ==> LowerChar(a[i]) == LowerChar(b[i])
  }

  /** Bean Validation's `@NotBlank` rejects a string that `trim()` empties,
      i.e. one made only of characters at or below U+0020. */
  predicate IsBlank(s: string) {
    forall i :: 0 <= i < |s| ==> s[i] <= ' '
  }

  /** Ignoring case, two strings are equal exactly when their lower-cased
      forms are. */
  lemma EqualsIgnoreCaseIsLowerEquality(a: string, b: string)
    ensures EqualsIgnoreCase(a, b) <==> Lower(a) == Lower(b)
  {
    if Lower(a) == Lower(b) {
      assert |a| == |b|;
      forall i | 0 <= i < |a| ensures LowerChar(a[i]) == LowerChar(b[i]) {
        assert Lower(a)[i] == Lower(b)[i];
      }
    }
  }

  /** A case-sensitive match is also a case-insensitive one. */
  lemma {:induction false} ContainsIgnoringCase(text: string, s: string)
    requires Contains(text, s)
    ensures Contains(Lower(text), Lower(s))
  {
    var i :| 0 <= i <= |text| && OccursAt(text, s, i);
    assert OccursAt(Lower(text), Lower(s), i);
  }

  /** Every string contains the empty string and itself. */
  lemma ContainsEmptyAndSelf(text: string)
    ensures Contains(text, "") && Contains(text, text)
  {
    assert OccursAt(text, "", 0);
    assert OccursAt(text, text, 0);
  }

  /** Lower-casing twice is lower-casing once. */
  lemma LowerIdempotent(s: string)
    ensures Lower(Lower(s)) == Lower(s)
  {
    forall i | 0 <= i < |s| ensures Lower(Lower(s))[i] == Lower(s)[i] {
    }
  }

  /** A non-empty map has a key. */
  lemma NonEmptyHasKey<K, V>(m: map<K, V>)
    requires |m| != 0
    ensures exists k :: k in m
  {
    if forall k :: k !in m {
      assert false;
    }
  }

  /** Some key of a non-empty map. */
  ghost function AnyKey<K, V>(m: map<K, V>): (k: K)
    requires |m| != 0
    ensures k in m
  {
    NonEmptyHasKey(m);
    var k :| k in m; k
  }

  /** A non-empty set has an element. */
  lemma NonEmptyHasElement<T>(s: set<T>)
    requires |s| != 0
    ensures exists x :: x in s
  {
    if forall x :: x !in s {
      assert false;
    }
  }

  /** Some element of a non-empty set. */
  ghost function AnyElement<T>(s: set<T>): (x: T)
    requires |s| != 0
    ensures x in s
  {
    NonEmptyHasElement(s);
    var x :| x in s; x
  }
}
