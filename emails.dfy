/**
 * The assignee-email rules shared by the create and update forms: the
 * `validateEmail` syntax check, the comma-separated pending input broken into
 * trimmed non-empty pieces, and the error messages the forms show.
 */
module Emails {
  import opened Text

  /** A character of the class `[^\s@]`. */
  predicate Plain(c: char) {
    !IsSpace(c) && c != '@'
  }

  /** A match of `[^\s@]+`: a non-empty run of plain characters. */
  predicate Segment(s: string) {
    |s| > 0 && forall k | 0 <= k < |s| :: Plain(s[k])
  }

  /** `validateEmail`: the whole string matches `^[^\s@]+@[^\s@]+\.[^\s@]+$`,
      that is, some `@` at index `i` and some later `.` at index `j` cut it into
      three segments. The middle and last segments may themselves hold dots, so
      any such `.` will do, as backtracking would find it. */
  predicate ValidateEmail(s: string) {
    exists i, j | 0 <= i < j < |s| ::
      s[i] == '@' && s[j] == '.' && Segment(s[..i]) && Segment(s[i + 1..j]) && Segment(s[j + 1..])
  }

  /** The shape the pattern describes, stated character by character: no
      whitespace, exactly one `@`, not first, and a `.` after it that is
      neither right after the `@` nor the last character. */
  predicate EmailShape(s: string) {
    && (forall k | 0 <= k < |s| :: !IsSpace(s[k]))
    && exists i | 0 < i < |s| ::
         && s[i] == '@'
         && (forall k | 0 <= k < |s| && k != i :: s[k] != '@')
         && (exists j | i + 1 < j < |s| - 1 :: s[j] == '.')
  }

  /** `validateEmail` accepts exactly the strings of that shape. */
  lemma ValidateEmailIffShape(s: string)
    ensures ValidateEmail(s) <==> EmailShape(s)
  {
    if ValidateEmail(s) {
      ValidImpliesShape(s);
    }
    if EmailShape(s) {
      ShapeImpliesValid(s);
    }
  }

  lemma ValidImpliesShape(s: string)
    requires ValidateEmail(s)
    ensures EmailShape(s)
  {
    var i, j :| 0 <= i < j < |s| && s[i] == '@' && s[j] == '.'
      && Segment(s[..i]) && Segment(s[i + 1..j]) && Segment(s[j + 1..]);
    forall k | 0 <= k < |s| && k != i && k != j ensures Plain(s[k]) {
      if k < i {
        PlainInSegment(s, 0, i, k);
      } else if k < j {
        PlainInSegment(s, i + 1, j, k);
      } else {
        PlainInSegment(s, j + 1, |s|, k);
      }
    }
    assert s[i] == '@' && !IsSpace('@') && !IsSpace('.');
    assert |s[i + 1..j]| > 0 && |s[j + 1..]| > 0;
  }

  lemma PlainInSegment(s: string, lo: nat, hi: nat, k: nat)
    requires lo <= k < hi <= |s| && Segment(s[lo..hi])
    ensures Plain(s[k])
  {
    assert s[k] == s[lo..hi][k - lo];
  }

  lemma ShapeImpliesValid(s: string)
    requires EmailShape(s)
    ensures ValidateEmail(s)
  {
    var i :| 0 < i < |s| && s[i] == '@'
      && (forall k | 0 <= k < |s| && k != i :: s[k] != '@')
      && (exists j | i + 1 < j < |s| - 1 :: s[j] == '.');
    var j :| i + 1 < j < |s| - 1 && s[j] == '.';
    assert Segment(s[..i]);
    assert Segment(s[i + 1..j]);
    assert Segment(s[j + 1..]);
  }

  /** Every accepted address is at least five characters long (`a@b.c`) and
      starts with a plain character, so the badge the lists show, the first
      character upper-cased, always exists. */
  lemma ValidEmailHasBadge(s: string)
    requires ValidateEmail(s)
    ensures |s| >= 5 && Plain(s[0])
  {
    var i, j :| 0 <= i < j < |s| && s[i] == '@' && s[j] == '.'
      && Segment(s[..i]) && Segment(s[i + 1..j]) && Segment(s[j + 1..]);
    assert s[0] == s[..i][0];
  }

  /** The badge shown for an assignee: the first character, upper-cased. */
  function Badge(email: string): (b: char)
    requires email != []
    ensures 'a' <= email[0] <= 'z' ==> b as int == email[0] as int - 32 && 'A' <= b <= 'Z'
    ensures !('a' <= email[0] <= 'z') ==> b == email[0]
  {
    Upper(email[0])
  }

  /** Worked cases: a plain address, one whose domain has several dots, one
      with no dot after the `@`, one with a space and one with two `@`s. */
  lemma ValidateEmailExamples()
    ensures ValidateEmail("a@b.com")
    ensures ValidateEmail("a@b.c.d")
    ensures !ValidateEmail("a@b")
    ensures !ValidateEmail("a b@c.com")
    ensures !ValidateEmail("a@b@c.d")
  {
    var s := "a@b.com";
    assert s[..1] == "a" && s[2..3] == "b" && s[4..] == "com";
    assert s[1] == '@' && s[3] == '.' && Segment(s[..1]) && Segment(s[2..3]) && Segment(s[4..]);
    var t := "a@b.c.d";
    assert t[..1] == "a" && t[2..3] == "b" && t[4..] == "c.d";
    assert t[1] == '@' && t[3] == '.' && Segment(t[..1]) && Segment(t[2..3]) && Segment(t[4..]);
    ValidateEmailIffShape("a@b");
    ValidateEmailIffShape("a b@c.com");
    assert "a b@c.com"[1] == ' ';
    ValidateEmailIffShape("a@b@c.d");
    assert "a@b@c.d"[1] == '@' && "a@b@c.d"[3] == '@';
  }

  predicate AllValid(emails: seq<string>) {
    forall e <- emails :: ValidateEmail(e)
  }

  /** A list of valid addresses stays valid when valid ones are appended. */
  lemma AllValidAppend(a: seq<string>, b: seq<string>)
    requires AllValid(b)
    ensures AllValid(a) ==> AllValid(a + b)
  {
    if AllValid(a) {
      forall e <- a + b ensures ValidateEmail(e) {
        assert e in a || e in b;
      }
    }
  }

  /** The filter the forms apply to find what to report: `!validateEmail(e)`. */
  predicate Invalid(p: string) {
    !ValidateEmail(p)
  }

  /** `email.split(',').map(e => e.trim()).filter(e => e !== '')`: the pieces of
      the pending input. Each is non-empty and holds no comma; `PiecesTrimmed`
      shows each is its own trim. */
  function Pieces(input: string): (ps: seq<string>)
    ensures forall p <- ps :: p != [] && ',' !in p
  {
    TrimmedNonBlank(Split(input, ','))
  }

  /** `.map(e => e.trim()).filter(e => e !== '')` over the split parts: their
      trims, in order, without the empty ones. */
  function TrimmedNonBlank(parts: seq<string>): (ps: seq<string>)
    ensures forall p <- ps :: p != []
    ensures forall q <- parts :: Trim(q) != [] ==> Trim(q) in ps
    ensures (forall q <- parts :: ',' !in q) ==> forall p <- ps :: ',' !in p
  {
    if parts == [] then []
    else
      var t := Trim(parts[0]);
      TrimKeepsCharacters(parts[0]);
      assert forall q <- parts :: q == parts[0] || q in parts[1..];
      assert forall q <- parts[1..] :: q in parts;
      (if t != [] then [t] else []) + TrimmedNonBlank(parts[1..])
  }

  /** The pieces of consecutive parts come out in the parts' order. */
  lemma {:induction false} TrimmedNonBlankAppend(a: seq<string>, b: seq<string>)
    ensures TrimmedNonBlank(a + b) == TrimmedNonBlank(a) + TrimmedNonBlank(b)
  {
    if a == [] {
      assert a + b == b;
    } else {
      assert (a + b)[0] == a[0];
      assert (a + b)[1..] == a[1..] + b;
      TrimmedNonBlankAppend(a[1..], b);
    }
  }

  /** Nothing is invented: there are no more pieces than parts, and every
      piece is the trim of some part. */
  lemma {:induction false} TrimmedNonBlankSound(parts: seq<string>)
    ensures |TrimmedNonBlank(parts)| <= |parts|
    ensures forall p <- TrimmedNonBlank(parts) :: exists q <- parts :: p == Trim(q)
  {
    if parts != [] {
      TrimmedNonBlankSound(parts[1..]);
      assert parts[0] in parts;
      assert forall q <- parts[1..] :: q in parts;
    }
  }

  /** Parts that are already trimmed and non-empty are kept as they are. */
  lemma {:induction false} TrimmedNonBlankFixed(parts: seq<string>)
    requires forall p <- parts :: p != [] && Trim(p) == p
    ensures TrimmedNonBlank(parts) == parts
  {
    if parts != [] {
      assert parts[0] in parts;
      assert forall q <- parts[1..] :: q in parts;
      TrimmedNonBlankFixed(parts[1..]);
      assert [parts[0]] + parts[1..] == parts;
    }
  }

  /** Typing trimmed, non-empty, comma-free addresses separated by commas
      gives back exactly those addresses, in order. */
  lemma PiecesOfJoin(ps: seq<string>)
    requires |ps| >= 1
    requires forall p <- ps :: p != [] && ',' !in p && Trim(p) == p
    ensures Pieces(Join(ps, [','])) == ps
  {
    SplitJoin(ps, ',');
    TrimmedNonBlankFixed(ps);
  }

  /** No piece has whitespace at either end. */
  lemma PiecesTrimmed(input: string)
    ensures forall p <- Pieces(input) :: Trim(p) == p
  {
    AllTrimmed(Split(input, ','));
  }

  lemma {:induction false} AllTrimmed(parts: seq<string>)
    ensures forall p <- TrimmedNonBlank(parts) :: Trim(p) == p
  {
    if parts != [] {
      TrimIdempotent(parts[0]);
      AllTrimmed(parts[1..]);
    }
  }

  /** What `trim` keeps are characters of its input. */
  lemma TrimKeepsCharacters(s: string)
    ensures forall c <- Trim(s) :: c in s
  {
    var r := Trim(s);
    var i := SkipSpaces(s, 0);
    assert r == s[i..i + |r|];
    forall c <- r ensures c in s {
      var k :| 0 <= k < |r| && r[k] == c;
      assert s[i + k] == c;
    }
  }

  /** Input that is empty or only whitespace yields no pieces at all. */
  lemma PiecesOfBlank(input: string)
    requires Trim(input) == []
    ensures Pieces(input) == []
  {
    SplitAllSpace(input, ',');
    NoPiecesOfBlankParts(Split(input, ','));
  }

  lemma {:induction false} NoPiecesOfBlankParts(parts: seq<string>)
    requires forall q <- parts :: AllSpace(q)
    ensures TrimmedNonBlank(parts) == []
  {
    if parts != [] {
      assert parts[0] in parts;
      assert forall q <- parts[1..] :: q in parts;
      NoPiecesOfBlankParts(parts[1..]);
    }
  }

  /** The pieces that fail `validateEmail`, in input order: empty exactly when
      every piece is valid. */
  function InvalidPieces(ps: seq<string>): (bad: seq<string>)
    ensures bad == [] <==> AllValid(ps)
    ensures forall p <- bad :: p in ps && !ValidateEmail(p)
    ensures forall k | 0 <= k < |ps| :: !ValidateEmail(ps[k]) ==> ps[k] in bad
  {
    var bad := Filter(ps, Invalid);
    assert bad != [] ==> bad[0] in bad;
    assert forall k | 0 <= k < |ps| :: ps[k] in ps;
    bad
  }

  /** The invalid pieces of consecutive inputs come out in input order, so
      the message lists every invalid piece in the order it was typed. */
  lemma InvalidPiecesAppend(a: seq<string>, b: seq<string>)
    ensures InvalidPieces(a + b) == InvalidPieces(a) + InvalidPieces(b)
  {
    FilterAppend(a, b, Invalid);
  }

  /** When `ps[k]` is the first invalid piece, it heads the invalid pieces. */
  lemma FirstInvalidPiece(ps: seq<string>, k: nat)
    requires k < |ps| && !ValidateEmail(ps[k])
    requires forall m | 0 <= m < k :: ValidateEmail(ps[m])
    ensures InvalidPieces(ps) != [] && InvalidPieces(ps)[0] == ps[k]
  {
    FilterFirst(ps, Invalid, k);
  }

  const InvalidFormatPrefix := "Invalid email format: "

  const TitleRequired := "Task title is required."

  /** The error the forms show for invalid pieces: the prefix, then the pieces
      joined by `", "`. */
  function InvalidEmailsMessage(bad: seq<string>): (msg: string)
    ensures |InvalidFormatPrefix| <= |msg| && msg[..|InvalidFormatPrefix|] == InvalidFormatPrefix
    ensures |bad| == 1 ==> msg == InvalidFormatPrefix + bad[0]
  {
    InvalidFormatPrefix + Join(bad, ", ")
  }

  /** What the first half of either form's `handleSubmit` does with the
      pending input: a rejection carrying the message that names every
      invalid piece, or the list the draft takes, the old entries followed by
      the pieces in input order. */
  datatype Merge = Rejected(message: string) | Merged(list: seq<string>)

  /** Rejected exactly when some piece fails `validateEmail`; a merge keeps a
      valid list valid. */
  function MergePending(list: seq<string>, email: string): (m: Merge)
    ensures m.Rejected? <==> !AllValid(Pieces(email))
    ensures m.Rejected? ==> m.message == InvalidEmailsMessage(InvalidPieces(Pieces(email)))
    ensures m.Merged? ==> m.list == list + Pieces(email) && (AllValid(list) ==> AllValid(m.list))
  {
    var newEmails := Pieces(email);
    var invalidEmails := InvalidPieces(newEmails);
    if invalidEmails != [] then Rejected(InvalidEmailsMessage(invalidEmails))
    else
      AllValidAppend(list, newEmails);
      Merged(list + newEmails)
  }
}
