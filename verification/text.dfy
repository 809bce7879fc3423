/**
 The two string operations the voice search relies on: lower-casing
 (`String.prototype.toLowerCase`) and substring containment
 (`String.prototype.includes`). Lower-casing is modelled on the ASCII
 letters A-Z only; every other character is left as it is.
 */
module Text {

  /** True for the ASCII capitals A-Z. */
  predicate IsUpper(c: char) {
    'A' <= c <= 'Z'
  }

  /** Lower-cases one character: A-Z become a-z, everything else is kept. */
  function LowerChar(c: char): (r: char)
    ensures !IsUpper(r)
    ensures IsUpper(c) ==> 'a' <= r <= 'z' && r as int - c as int == 'a' as int - 'A' as int
    ensures !IsUpper(c) ==> r == c
  {
    if IsUpper(c) then (c as int + ('a' as int - 'A' as int)) as char else c
  }

  /** A string that holds no ASCII capital. */
  predicate IsLowered(s: string) {
    forall i :: 0 <= i < |s| ==> !IsUpper(s[i])
  }

  /** `s.toLowerCase()`, character by character. */
  function ToLower(s: string): (r: string)
    ensures |r| == |s|
    ensures forall i :: 0 <= i < |s| ==> r[i] == LowerChar(s[i])
    ensures IsLowered(r)
  {
    if |s| == 0 then [] else [LowerChar(s[0])] + ToLower(s[1..])
  }

  /** Lower-casing is applied to each half of a concatenation separately. */
  lemma ToLowerAppend(a: string, b: string)
    ensures ToLower(a + b) == ToLower(a) + ToLower(b)
  {
  }

  /** `s.includes(q)`: `q` occurs somewhere in `s`; checked at every start position in turn. */
  predicate Includes(s: string, q: string)
    decreases |s|
  {
    q <= s || (|s| > 0 && Includes(s[1..], q))
  }

  /** Reference definition of containment: `q` is the slice of `s` that starts at `i`. */
  ghost predicate OccursAt(s: string, q: string, i: int) {
    0 <= i && i + |q| <= |s| && s[i..i + |q|] == q
  }

  /** Every string contains the empty string. */
  lemma IncludesEmpty(s: string)
    ensures Includes(s, "")
  {
  }

  /** An occurrence in the tail of a non-empty string is an occurrence one position later in the string. */
  lemma ShiftOccurrence(s: string, q: string, i: int)
    requires |s| > 0 && 0 <= i
    ensures OccursAt(s[1..], q, i) <==> OccursAt(s, q, i + 1)
  {
    if i + |q| <= |s| - 1 {
      var inTail, inWhole := s[1..][i..i + |q|], s[i + 1..i + 1 + |q|];
      forall k | 0 <= k < |q|
        ensures inTail[k] == inWhole[k]
      {
      }
      assert inTail == inWhole;
    }
  }

  /** `Includes` finds exactly the occurrences the reference definition describes. */
  lemma {:induction false} IncludesIff(s: string, q: string)
    ensures Includes(s, q) <==> exists i :: OccursAt(s, q, i)
    decreases |s|
  {
    if Includes(s, q) {
      if q <= s {
        assert s[0..|q|] == q;
        assert OccursAt(s, q, 0);
      } else {
        IncludesIff(s[1..], q);
        var i :| OccursAt(s[1..], q, i);
        ShiftOccurrence(s, q, i);
      }
    }
    if exists i :: OccursAt(s, q, i) {
      var i :| OccursAt(s, q, i);
      if i == 0 {
        assert q <= s;
      } else {
        ShiftOccurrence(s, q, i - 1);
        IncludesIff(s[1..], q);
      }
    }
  }

  /** Containment is transitive: a string found inside a substring of `a` is found inside `a`. */
  lemma {:induction false} IncludesTransitive(a: string, b: string, c: string)
    requires Includes(a, b) && Includes(b, c)
    ensures Includes(a, c)
  {
    IncludesIff(a, b);
    IncludesIff(b, c);
    var i :| OccursAt(a, b, i);
    var j :| OccursAt(b, c, j);
    forall k | 0 <= k < |c|
      ensures a[i + j..i + j + |c|][k] == c[k]
    {
      assert c[k] == b[j + k] == a[i + j + k];
    }
    assert OccursAt(a, c, i + j);
    IncludesIff(a, c);
  }

  /** A string that lacks the first character of `q` does not contain `q`. */
  lemma {:induction false} MissingCharExcludes(s: string, q: string)
    requires |q| > 0 && q[0] !in s
    ensures !Includes(s, q)
    decreases |s|
  {
    if |s| > 0 {
      assert s[0] != q[0];
      MissingCharExcludes(s[1..], q);
    }
  }

  /** A string contains every prefix of itself. */
  lemma IncludesPrefix(p: string, t: string)
    ensures Includes(p + t, p)
  {
  }
}
