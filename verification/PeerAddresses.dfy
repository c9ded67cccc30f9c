/** Peer addresses with several segments, PeerAddressesAreSameNode of common/utils/net/ips.go. */
module PeerAddresses {

  const SEPARATOR: char := '|'

  /** `strings.Split`: an address always has at least one segment. */
  function Split(a: string, sep: char): (parts: seq<string>)
    ensures |parts| > 0
  {
    if a == "" then [""]
    else
      var parts := Split(a[1..], sep);
      if a[0] == sep then [""] + parts else [[a[0]] + parts[0]] + parts[1..]
  }

  function Join(parts: seq<string>, sep: char): string
    requires |parts| > 0
  {
    if |parts| == 1 then parts[0] else parts[0] + [sep] + Join(parts[1..], sep)
  }

  /** The segments put the address back together, and hold no separator. */
  lemma {:induction false} SplitIsCut(a: string, sep: char)
    ensures Join(Split(a, sep), sep) == a
    ensures forall k :: 0 <= k < |Split(a, sep)| ==> sep !in Split(a, sep)[k]
  {
    if a != "" {
      SplitIsCut(a[1..], sep);
      var parts := Split(a[1..], sep);
      if a[0] == sep {
        assert Split(a, sep)[1..] == parts;
      } else {
        assert Split(a, sep)[1..] == parts[1..];
      }
    }
  }

  /** An address without a separator is its own only segment. */
  lemma {:induction false} PlainAddress(a: string, sep: char)
    requires sep !in a
    ensures Split(a, sep) == [a]
  {
    if a != "" {
      PlainAddress(a[1..], sep);
      assert a[0] in a && a == [a[0]] + a[1..];
    }
  }

  /** One text continues another after a separator exactly when its segments continue the other's. */
  lemma {:induction false} PrefixOfSegments(o: string, s: string, sep: char)
    ensures o + [sep] <= s <==> Split(o, sep) < Split(s, sep)
  {
    if s == "" || o == "" {
      EmptyPrefix(o, s, sep);
    } else if s[0] == o[0] {
      PrefixOfSegments(o[1..], s[1..], sep);
      PrefixCons(o, s, sep);
      SegmentsCons(o[0], Split(o[1..], sep), Split(s[1..], sep), sep);
    } else {
      hide Split;
      FirstSegment(s, sep);
      FirstSegment(o, sep);
      assert (o + [sep])[0] == o[0];
      assert Split(o, sep)[0] != Split(s, sep)[0];
    }
  }

  lemma PrefixCons(o: string, s: string, sep: char)
    requires o != "" && s != "" && o[0] == s[0]
    ensures o + [sep] <= s <==> o[1..] + [sep] <= s[1..]
  {
    assert o + [sep] == [o[0]] + (o[1..] + [sep]) && s == [s[0]] + s[1..];
  }

  lemma {:induction false} EmptyPrefix(o: string, s: string, sep: char)
    requires s == "" || o == ""
    ensures o + [sep] <= s <==> Split(o, sep) < Split(s, sep)
  {
    FirstSegment(s, sep);
    if s != "" {
      assert o + [sep] == [sep] && ([sep] <= s <==> s[0] == sep);
      if s[0] == sep {
        assert Split(s, sep) == [""] + Split(s[1..], sep);
      }
    }
  }

  lemma {:induction false} FirstSegment(s: string, sep: char)
    ensures s != "" && s[0] == sep ==> Split(s, sep)[0] == ""
    ensures s != "" && s[0] != sep ==> Split(s, sep)[0] != "" && Split(s, sep)[0][0] == s[0]
    ensures s == "" ==> Split(s, sep) == [""]
  {
  }

  /** What a first character does to segments keeps and reflects their order as prefixes. */
  lemma SegmentsCons(c: char, x: seq<string>, y: seq<string>, sep: char)
    requires x != [] && y != []
    ensures [""] + x < [""] + y <==> x < y
    ensures [[c] + x[0]] + x[1..] < [[c] + y[0]] + y[1..] <==> x < y
  {
    assert x == [x[0]] + x[1..] && y == [y[0]] + y[1..];
    var a, b := [[c] + x[0]] + x[1..], [[c] + y[0]] + y[1..];
    assert ([c] + x[0])[1..] == x[0] && ([c] + y[0])[1..] == y[0];
    if a < b {
      assert a[0] == b[0];
      assert forall i :: 0 < i < |x| ==> x[i] == a[i] && y[i] == b[i];
      assert x == y[..|x|];
    }
    if x < y {
      assert y[..|x|] == x;
    }
    PrefixAfter("", x, y);
  }

  lemma PrefixAfter(a: string, x: seq<string>, y: seq<string>)
    ensures [a] + x < [a] + y <==> x < y
  {
    if [a] + x < [a] + y {
      assert forall i :: 0 <= i < |x| ==> x[i] == ([a] + x)[i + 1] && y[i] == ([a] + y)[i + 1];
      assert x == y[..|x|];
    }
  }

  function Segments(a: string): (s: set<string>)
    ensures s != {}
  {
    var parts := Split(a, SEPARATOR);
    var s := set p | p in parts;
    assert parts[0] in s;
    s
  }

  predicate SameNode(a1: string, a2: string) {
    Segments(a1) * Segments(a2) != {}
  }

  method PeerAddressesAreSameNode(a1: string, a2: string) returns (eq: bool)
    ensures eq == SameNode(a1, a2)
  {
    if a1 == "" && a2 == "" {
      assert "" in Segments(a1) * Segments(a2);
      return true;
    }
    var parts1, parts2 := Split(a1, SEPARATOR), Split(a2, SEPARATOR);
    eq := false;
    var i := 0;
    while i < |parts1| && !eq
      invariant 0 <= i <= |parts1|
      invariant eq ==> SameNode(a1, a2)
      invariant !eq ==> forall k :: 0 <= k < i ==> parts1[k] !in parts2
    {
      var j := 0;
      while j < |parts2| && !eq
        invariant 0 <= j <= |parts2|
        invariant eq ==> SameNode(a1, a2)
        invariant !eq ==> parts1[i] !in parts2[..j]
      {
        if parts1[i] == parts2[j] {
          assert parts1[i] in Segments(a1) * Segments(a2);
          eq := true;
        }
        j := j + 1;
      }
      i := i + 1;
    }
  }

  lemma SharedSegment(a1: string, a2: string, p: string)
    requires p in Segments(a1) && p in Segments(a2)
    ensures SameNode(a1, a2)
  {
    assert p in Segments(a1) * Segments(a2);
  }

  lemma SameNodeIsReflexive(a: string)
    ensures SameNode(a, a)
  {
    SharedSegment(a, a, Split(a, SEPARATOR)[0]);
  }

  lemma SameNodeIsSymmetric(a1: string, a2: string)
    ensures SameNode(a1, a2) == SameNode(a2, a1)
  {
    assert Segments(a1) * Segments(a2) == Segments(a2) * Segments(a1);
  }

  lemma SegmentAsAddress(a: string, p: string)
    requires p in Segments(a)
    ensures Segments(p) == {p} && SameNode(p, a)
  {
    SplitIsCut(a, SEPARATOR);
    PlainAddress(p, SEPARATOR);
    SharedSegment(p, a, p);
  }

  ghost predicate SingleSegment(b: string) {
    forall p, q :: p in Segments(b) && q in Segments(b) ==> p == q
  }

  ghost predicate TransitiveThrough(b: string) {
    forall a, c :: SameNode(a, b) && SameNode(b, c) ==> SameNode(a, c)
  }

  /**
    Two addresses that are each on the same node as `b` need not be on the same node as one
    another: that follows if and only if all segments of `b` are the same.
   */
  lemma TransitiveThroughIff(b: string)
    ensures TransitiveThrough(b) <==> SingleSegment(b)
  {
    if SingleSegment(b) {
      forall a, c | SameNode(a, b) && SameNode(b, c)
        ensures SameNode(a, c)
      {
        var p :| p in Segments(a) * Segments(b);
        var q :| q in Segments(b) * Segments(c);
        SharedSegment(a, c, p);
      }
    } else {
      var p, q :| p in Segments(b) && q in Segments(b) && p != q;
      SegmentAsAddress(b, p);
      SegmentAsAddress(b, q);
      SameNodeIsSymmetric(q, b);
      assert !SameNode(p, q);
    }
  }

  lemma TwoSegments()
    ensures Segments("a|b") == {"a", "b"} && Segments("a") == {"a"} && Segments("b") == {"b"}
  {
    PlainAddress("a", SEPARATOR);
    PlainAddress("b", SEPARATOR);
    assert Split("a|b", SEPARATOR) == ["a"] + Split("b", SEPARATOR) by {
      assert "a|b"[1..] == "|b" && "|b"[1..] == "b";
      assert Split("|b", SEPARATOR) == [""] + Split("b", SEPARATOR);
    }
  }

  /** Both "a" and "b" are on the node of "a|b", and not on one another's. */
  lemma SharedAddressExample()
    ensures SameNode("a", "a|b") && SameNode("a|b", "b") && !SameNode("a", "b")
  {
    TwoSegments();
    assert "a" != "b";
    assert "a" in Segments("a") * Segments("a|b") && "b" in Segments("a|b") * Segments("b");
  }
}
