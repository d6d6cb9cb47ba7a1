/** Small facts about sequences and finite sets that several models share. */
module Common {

  datatype Option<+T> = None | Some(value: T)

  predicate Distinct<T(==)>(s: seq<T>) {
    forall i, j | 0 <= i < j < |s| :: s[i] != s[j]
  }

  function Elements<T>(s: seq<T>): set<T> {
    set x | x in s
  }

  /** The index of the only occurrence of x. */
  ghost function Position<T>(s: seq<T>, x: T): (i: nat)
    requires x in s
    ensures i < |s| && s[i] == x
  {
    var i :| 0 <= i < |s| && s[i] == x;
    i
  }

  lemma DistinctSnoc<T>(s: seq<T>, x: T)
    ensures Distinct(s + [x]) <==> Distinct(s) && x !in s
  {
    var t := s + [x];
    assert forall i | 0 <= i < |s| :: t[i] == s[i];
    assert t[|s|] == x;
  }

  lemma SubsetSize<T>(a: set<T>, b: set<T>)
    requires a <= b
    ensures |a| <= |b|
    ensures |a| == |b| ==> a == b
  {
    assert b == a + (b - a);
  }

  lemma {:induction false} DistinctSize<T>(s: seq<T>)
    ensures |Elements(s)| <= |s|
    ensures |Elements(s)| == |s| <==> Distinct(s)
  {
    if s != [] {
      var n := |s| - 1;
      var t := s[..n];
      DistinctSize(t);
      assert s == t + [s[n]];
      assert Elements(s) == Elements(t) + {s[n]};
      if s[n] in t {
        assert Elements(s) == Elements(t);
        var j :| 0 <= j < n && t[j] == s[n];
        assert s[j] == s[n];
      } else if Distinct(t) {
        assert forall i, j | 0 <= i < j < |s| :: s[i] != s[j];
      } else {
        var i, j :| 0 <= i < j < n && t[i] == t[j];
        assert s[i] == s[j];
      }
    }
  }

  /** `join` of JavaScript. */
  function Join(parts: seq<string>, sep: string): string {
    if parts == [] then "" else if |parts| == 1 then parts[0] else parts[0] + sep + Join(parts[1..], sep)
  }

  /** White space as `String.prototype.trim` has it. */
  predicate IsSpace(c: char) {
    || '\t' <= c <= '\r' || c == ' ' || c == '\U{00A0}' || c == '\U{1680}' || '\U{2000}' <= c <= '\U{200A}'
    || c == '\U{2028}' || c == '\U{2029}' || c == '\U{202F}' || c == '\U{205F}' || c == '\U{3000}' || c == '\U{FEFF}'
  }

  function Trim(s: string): string {
    if s == "" then ""
    else if IsSpace(s[0]) then Trim(s[1..])
    else if IsSpace(s[|s| - 1]) then Trim(s[..|s| - 1])
    else s
  }

  predicate AllSpace(s: string) {
    forall c | c in s :: IsSpace(c)
  }

  lemma {:induction false} TrimmedEnds(s: string)
    ensures Trim(s) != "" ==> !IsSpace(Trim(s)[0]) && !IsSpace(Trim(s)[|Trim(s)| - 1])
  {
    if s != "" {
      TrimmedEnds(s[1..]);
      TrimmedEnds(s[..|s| - 1]);
    }
  }

  /** Trimming takes white space off both ends, and all of it. */
  lemma {:induction false} TrimMeaning(s: string) returns (before: string, after: string)
    ensures s == before + Trim(s) + after && AllSpace(before) && AllSpace(after)
    ensures Trim(s) != "" ==> !IsSpace(Trim(s)[0]) && !IsSpace(Trim(s)[|Trim(s)| - 1])
  {
    TrimmedEnds(s);
    before, after := "", "";
    if s != "" && IsSpace(s[0]) {
      var b;
      b, after := TrimMeaning(s[1..]);
      before := [s[0]] + b;
      PutFront(s, b, Trim(s), after);
    } else if s != "" && IsSpace(s[|s| - 1]) {
      var a;
      before, a := TrimMeaning(s[..|s| - 1]);
      after := a + [s[|s| - 1]];
      PutBack(s, before, Trim(s), a);
    }
  }

  lemma PutFront(s: string, b: string, t: string, a: string)
    requires s != "" && s[1..] == b + t + a
    ensures s == ([s[0]] + b) + t + a
  {
    assert s == [s[0]] + s[1..];
  }

  lemma PutBack(s: string, b: string, t: string, a: string)
    requires s != "" && s[..|s| - 1] == b + t + a
    ensures s == b + t + (a + [s[|s| - 1]])
  {
    assert s == s[..|s| - 1] + [s[|s| - 1]];
  }
}
