/**
 Values shared by every component: optional values, Go's byte strings with their
 ordering, the user record and the storage errors.
 */
module Base {

  datatype Option<+T> = None | Some(value: T)

  datatype Result<+T> = Ok(value: T) | Err(error: Error)

  newtype byte = x: int | 0 <= x < 256

  /** A Go string is a sequence of bytes. */
  type Str = seq<byte>

  datatype User = User(id: Str, name: Str, email: Str, age: int, createdAt: Option<int>, updatedAt: Option<int>)

  /** Two users, for concrete runs. */
  const ANN := User([1], [1], [1], 0, Some(0), Some(0))
  const BOB := User([2], [2], [2], 0, Some(0), Some(0))

  /** Error values. `Wrapped` is what `fmt.Errorf("...: %w", err)` builds, so a bare
      sentinel and a wrapped one are different values with the same root. */
  datatype Error =
    | NotFound | Capacity | AlreadyExists | Invalid | Unavailable | CircuitOpen
    | Canceled | DeadlineExceeded
    | EndOfFile | UnexpectedEndOfFile
    | Postgres(code: string)
    | Other(tag: nat)
    | Wrapped(inner: Error)
  {
    function Root(): Error {
      match this
      case Wrapped(inner) => inner.Root()
      case _ => this
    }

    /** `errors.Is(err, target)` for an unwrapped target. */
    predicate Is(target: Error) {
      Root() == target
    }
  }

  /** The caller's context, as far as `contextError` looks at it. */
  datatype Context = NilContext | Live | Cancelled | Expired {
    function Error(): Option<Error> {
      match this
      case NilContext => Some(Invalid)
      case Live => None
      case Cancelled => Some(Canceled)
      case Expired => Some(DeadlineExceeded)
    }
  }

  /** Go's `<` on strings: byte-wise lexicographic. */
  predicate Less(a: Str, b: Str) {
    b != [] && (a == [] || a[0] < b[0] || (a[0] == b[0] && Less(a[1..], b[1..])))
  }

  lemma {:induction false} LessIrreflexive(a: Str)
    ensures !Less(a, a)
  {
    if a != [] {
      LessIrreflexive(a[1..]);
    }
  }

  lemma {:induction false} LessTransitive(a: Str, b: Str, c: Str)
    requires Less(a, b) && Less(b, c)
    ensures Less(a, c)
  {
    if a != [] && a[0] == b[0] == c[0] {
      LessTransitive(a[1..], b[1..], c[1..]);
    }
  }

  lemma {:induction false} LessTotal(a: Str, b: Str)
    ensures Less(a, b) || a == b || Less(b, a)
  {
    if a != [] && b != [] && a[0] == b[0] {
      LessTotal(a[1..], b[1..]);
      assert a[1..] == b[1..] ==> a == [a[0]] + a[1..] == [b[0]] + b[1..] == b;
    }
  }

  /** `a` and `b` agree up to position `i`, where `a` ends or has the smaller byte. */
  predicate LessAt(a: Str, b: Str, i: nat) {
    i <= |a| && i < |b| && a[..i] == b[..i] && (i == |a| || a[i] < b[i])
  }

  lemma LessAtTail(a: Str, b: Str, i: nat)
    requires a != [] && b != [] && a[0] == b[0]
    ensures LessAt(a, b, i + 1) <==> LessAt(a[1..], b[1..], i)
  {
    if i + 1 <= |a| && i + 1 < |b| {
      assert a[..i + 1] == [a[0]] + a[1..][..i] && b[..i + 1] == [b[0]] + b[1..][..i];
    }
  }

  /** It is the order of dictionaries: the first difference decides. */
  lemma {:induction false} LessIsLexicographic(a: Str, b: Str)
    ensures Less(a, b) <==> exists i: nat :: LessAt(a, b, i)
    decreases |a|
  {
    if b == [] {
    } else if a == [] || a[0] < b[0] {
      assert LessAt(a, b, 0);
    } else if a[0] == b[0] {
      LessIsLexicographic(a[1..], b[1..]);
      forall i: nat ensures LessAt(a, b, i + 1) <==> LessAt(a[1..], b[1..], i) {
        LessAtTail(a, b, i);
      }
      if i: nat :| LessAt(a, b, i) {
        assert i > 0;
        assert LessAt(a[1..], b[1..], i - 1);
      }
      if i: nat :| LessAt(a[1..], b[1..], i) {
        assert LessAt(a, b, i + 1);
      }
    } else {
      forall i: nat ensures !LessAt(a, b, i) {
        assert i > 0 && i <= |a| && i < |b| ==> a[..i][0] != b[..i][0];
      }
    }
  }

  lemma Shrinks(a: set<Str>, b: set<Str>)
    requires a <= b
    ensures |a| <= |b|
  {
    assert |b| == |a| + |b - a| by {
      assert b == a + (b - a);
    }
  }

  /** `strings.TrimSpace(s) == ""`: every rune of the UTF-8 string is white space. */
  predicate Blank(s: Str) {
    || s == []
    || (s[0] in {9, 10, 11, 12, 13, 32} && Blank(s[1..]))
    || (|s| >= 2 && s[0] == 0xC2 && s[1] in {0x85, 0xA0} && Blank(s[2..]))
    || (|s| >= 3 && Space3(s[0], s[1], s[2]) && Blank(s[3..]))
  }

  /** On ASCII strings: nothing but tabs, line breaks and blanks. */
  lemma {:induction false} BlankAsciiIff(s: Str)
    requires forall i :: 0 <= i < |s| ==> s[i] < 128
    ensures Blank(s) <==> forall i :: 0 <= i < |s| ==> s[i] == 32 || 9 <= s[i] <= 13
  {
    if s != [] {
      BlankAsciiIff(s[1..]);
      assert forall i :: 0 <= i < |s[1..]| ==> s[1..][i] == s[i + 1];
      assert s[0] < 128;
    }
  }

  /** The white-space runes that take three bytes in UTF-8. */
  predicate Space3(a: byte, b: byte, c: byte) {
    || (a == 0xE1 && b == 0x9A && c == 0x80)
    || (a == 0xE2 && b == 0x80 && (0x80 <= c <= 0x8A || c in {0xA8, 0xA9, 0xAF}))
    || (a == 0xE2 && b == 0x81 && c == 0x9F)
    || (a == 0xE3 && b == 0x80 && c == 0x80)
  }
}
