/**
 JavaScript strings, as the sequences of UTF-16 code units that every string
 operation of the repository works on, and the ordering that `<` and
 `Array.prototype.sort` give them.
 */
module JsText {

  type Unit = u: int | 0 <= u < 0x1_0000

  type Str = seq<Unit>

  const COMMA: Unit := 0x2C
  const QUOTE: Unit := 0x22
  const DOT: Unit := 0x2E

  // A string literal of the source.
  function Ascii(s: string): (t: Str)
    requires forall i :: 0 <= i < |s| ==> s[i] as int < 0x80
    ensures |t| == |s| && forall i :: 0 <= i < |t| ==> t[i] == s[i] as int
  {
    seq(|s|, i requires 0 <= i < |s| => s[i] as int)
  }

  // A lower-case hexadecimal digit.
  predicate IsHexDigit(u: Unit) {
    0x30 <= u <= 0x39 || 0x61 <= u <= 0x66
  }

  // `s.split(sep)`.
  function Split(s: Str, sep: Unit): (parts: seq<Str>)
    ensures parts != []
  {
    if s == [] then [[]]
    else
      var parts := Split(s[1..], sep);
      if s[0] == sep then [[]] + parts else [[s[0]] + parts[0]] + parts[1..]
  }

  lemma {:induction false} SplitAtFirst(p: Str, rest: Str, sep: Unit)
    requires sep !in p
    ensures Split(p + [sep] + rest, sep) == [p] + Split(rest, sep)
  {
    var s := p + [sep] + rest;
    if p == [] {
      assert s[1..] == rest;
    } else {
      assert s[1..] == p[1..] + [sep] + rest;
      SplitAtFirst(p[1..], rest, sep);
      assert [p[0]] + p[1..] == p;
      assert ([p[1..]] + Split(rest, sep))[1..] == Split(rest, sep);
    }
  }

  lemma {:induction false} SplitNone(p: Str, sep: Unit)
    requires sep !in p
    ensures Split(p, sep) == [p]
  {
    if p != [] {
      SplitNone(p[1..], sep);
      assert [p[0]] + p[1..] == p;
    }
  }

  // The parts with the separator between them.
  function Joined(parts: seq<Str>, sep: Unit): Str
    requires parts != []
  {
    if |parts| == 1 then parts[0] else parts[0] + [sep] + Joined(parts[1..], sep)
  }

  /** Splitting loses nothing: the parts hold no separator, and put together they are the text. */
  lemma {:induction false} SplitWhole(s: Str, sep: Unit)
    ensures Joined(Split(s, sep), sep) == s
    ensures forall p :: p in Split(s, sep) ==> sep !in p
  {
    if s != [] {
      SplitWhole(s[1..], sep);
      var parts := Split(s[1..], sep);
      assert s == [s[0]] + s[1..];
      if s[0] == sep {
        assert ([[]] + parts)[1..] == parts;
        assert Joined(Split(s, sep), sep) == [] + [sep] + Joined(parts, sep);
      } else {
        FirstGrows(s[0], parts, sep);
      }
    }
  }

  lemma FirstGrows(u: Unit, parts: seq<Str>, sep: Unit)
    requires parts != []
    ensures Joined([[u] + parts[0]] + parts[1..], sep) == [u] + Joined(parts, sep)
  {
    var more := [[u] + parts[0]] + parts[1..];
    assert more[1..] == parts[1..];
    if |parts| > 1 {
      assert [u] + parts[0] + [sep] + Joined(parts[1..], sep) == [u] + (parts[0] + [sep] + Joined(parts[1..], sep));
    }
  }

  lemma SplitThree(x: Str, y: Str, z: Str, sep: Unit)
    requires sep !in x && sep !in y && sep !in z
    ensures Split(x + [sep] + y + [sep] + z, sep) == [x, y, z]
  {
    assert x + [sep] + y + [sep] + z == x + [sep] + (y + [sep] + z);
    SplitAtFirst(x, y + [sep] + z, sep);
    SplitAtFirst(y, z, sep);
    SplitNone(z, sep);
  }

  lemma ThreeJoined(x: Str, y: Str, z: Str, sep: Unit)
    ensures Joined([x, y, z], sep) == x + [sep] + y + [sep] + z
  {
    assert [x, y, z][1..] == [y, z] && [y, z][1..] == [z];
    assert Joined([y, z], sep) == y + [sep] + Joined([z], sep);
    assert x + [sep] + (y + [sep] + z) == x + [sep] + y + [sep] + z;
  }

  // The first occurrence of a separator cuts a text in one way only.
  lemma CutUnique(x: Str, y: Str, x': Str, y': Str, c: Unit)
    requires c !in x && c !in x'
    requires x + ([c] + y) == x' + ([c] + y')
    ensures x == x' && y == y'
  {
    var t := x + ([c] + y);
    assert t[|x|] == c && t[|x'|] == c;
    assert forall i :: 0 <= i < |x| ==> t[i] == x[i];
    assert forall i :: 0 <= i < |x'| ==> t[i] == x'[i];
    assert |x| == |x'|;
    assert x == t[..|x|] && y == t[|x| + 1..];
  }

  // Code-unit order: the order of `<` on strings.
  predicate Less(a: Str, b: Str) {
    if b == [] then false
    else if a == [] then true
    else if a[0] != b[0] then a[0] < b[0]
    else Less(a[1..], b[1..])
  }

  lemma {:induction false} LessIrreflexive(a: Str)
    ensures !Less(a, a)
  {
    if a != [] { LessIrreflexive(a[1..]); }
  }

  lemma {:induction false} LessTransitive(a: Str, b: Str, c: Str)
    requires Less(a, b) && Less(b, c)
    ensures Less(a, c)
  {
    if a != [] && a[0] == b[0] == c[0] { LessTransitive(a[1..], b[1..], c[1..]); }
  }

  lemma {:induction false} LessTotal(a: Str, b: Str)
    ensures Less(a, b) || a == b || Less(b, a)
  {
    if a != [] && b != [] && a[0] == b[0] {
      LessTotal(a[1..], b[1..]);
      assert a == [a[0]] + a[1..] && b == [b[0]] + b[1..];
    }
  }

  // The texts agree up to place k, where a ends first or has the smaller unit.
  predicate FirstDiffer(a: Str, b: Str, k: nat) {
    && k <= |a| && k < |b| && a[..k] == b[..k]
    && (k == |a| || a[k] < b[k])
  }

  ghost predicate Precedes(a: Str, b: Str) { exists k: nat :: FirstDiffer(a, b, k) }

  /** Less is the order by the first place where two texts differ, a prefix first. */
  lemma {:induction false} LessIsFirstDifference(a: Str, b: Str)
    ensures Less(a, b) <==> Precedes(a, b)
  {
    if a != [] && b != [] && a[0] == b[0] {
      LessIsFirstDifference(a[1..], b[1..]);
      assert a == [a[0]] + a[1..] && b == [b[0]] + b[1..];
      if Precedes(a[1..], b[1..]) {
        var k: nat :| FirstDiffer(a[1..], b[1..], k);
        assert a[..k + 1] == [a[0]] + a[1..][..k] && b[..k + 1] == [b[0]] + b[1..][..k];
        assert FirstDiffer(a, b, k + 1);
      }
      if Precedes(a, b) {
        var k: nat :| FirstDiffer(a, b, k);
        assert k > 0;
        assert a[1..][..k - 1] == a[..k][1..] && b[1..][..k - 1] == b[..k][1..];
        assert FirstDiffer(a[1..], b[1..], k - 1);
      }
    } else if Less(a, b) {
      assert FirstDiffer(a, b, 0);
    } else if Precedes(a, b) {
      var k: nat :| FirstDiffer(a, b, k);
      SameFirst(a, b, k);
    }
  }

  lemma SameFirst(a: Str, b: Str, k: nat)
    requires FirstDiffer(a, b, k)
    ensures k > 0 ==> a[0] == b[0]
  {
    assert k > 0 ==> a[..k][0] == a[0] && b[..k][0] == b[0];
  }

  lemma LessAsymmetric(a: Str, b: Str)
    requires Less(a, b)
    ensures !Less(b, a) && a != b
  {
  }
}
