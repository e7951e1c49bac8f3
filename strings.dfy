/** The string operations the gate uses to find the tenant of a user:
    `str.split` on a one-character separator, and "the text after the last
    `@`" as an independent reference definition of `split('@')[-1]`. */
module Strings {

  /** Python's `s.split(sep)` for a single-character separator: the pieces
      between consecutive separators, in order (an empty piece before a
      leading, after a trailing, and between two adjacent separators). */
  function Split(s: string, sep: char): (parts: seq<string>)
    ensures |parts| >= 1
    ensures |parts| == 1 <==> sep !in s
    decreases |s|
  {
    if |s| == 0 then [""]
    else
      var rest := Split(s[1..], sep);
      if s[0] == sep then [""] + rest
      else [[s[0]] + rest[0]] + rest[1..]
  }

  /** `sep.join(parts)`. */
  function Join(parts: seq<string>, sep: char): (s: string)
    requires |parts| >= 1
    decreases |parts|
  {
    if |parts| == 1 then parts[0] else parts[0] + [sep] + Join(parts[1..], sep)
  }

  /** `parts[-1]`. */
  function Last(parts: seq<string>): (last: string)
    requires |parts| >= 1
  {
    parts[|parts| - 1]
  }

  /** The tenant domain of a user identifier: `user_details.split('@')[-1]`. */
  function Domain(userDetails: string): (d: string)
    ensures '@' !in d && |d| <= |userDetails| && d == userDetails[|userDetails| - |d|..]
    ensures '@' !in userDetails ==> d == userDetails
    ensures '@' in userDetails ==> |d| < |userDetails| && userDetails[|userDetails| - |d| - 1] == '@'
  {
    LastPieceAfterLastSeparator(userDetails, '@');
    Last(Split(userDetails, '@'))
  }

  /** Joining the pieces back with the separator gives the original string. */
  lemma {:induction false} JoinSplit(s: string, sep: char)
    ensures Join(Split(s, sep), sep) == s
    decreases |s|
  {
    if |s| > 0 {
      var rest := Split(s[1..], sep);
      JoinSplit(s[1..], sep);
      if s[0] == sep {
        assert Split(s, sep) == [""] + rest;
        assert ([""] + rest)[1..] == rest;
      } else {
        var parts := Split(s, sep);
        assert parts[0] == [s[0]] + rest[0];
        if |rest| > 1 {
          assert parts[1..] == rest[1..];
          assert Join(rest, sep) == rest[0] + [sep] + Join(rest[1..], sep);
        }
      }
    }
  }

  /** No piece contains the separator. */
  lemma {:induction false} SplitPiecesFree(s: string, sep: char)
    ensures forall i :: 0 <= i < |Split(s, sep)| ==> sep !in Split(s, sep)[i]
    decreases |s|
  {
    if |s| > 0 {
      SplitPiecesFree(s[1..], sep);
      var rest := Split(s[1..], sep);
      if s[0] != sep {
        var parts := Split(s, sep);
        forall i | 0 <= i < |parts| ensures sep !in parts[i] {
          if i == 0 {
            assert parts[0] == [s[0]] + rest[0];
          } else {
            assert parts[i] == rest[i];
          }
        }
      }
    }
  }

  /** A separator-free prefix followed by a separator becomes the first piece. */
  lemma {:induction false} SplitAfterPiece(p: string, t: string, sep: char)
    requires sep !in p
    ensures Split(p + [sep] + t, sep) == [p] + Split(t, sep)
    decreases |p|
  {
    if |p| == 0 {
      assert p + [sep] + t == [sep] + t;
      assert ([sep] + t)[1..] == t;
    } else {
      var s := p + [sep] + t;
      assert s[0] == p[0];
      assert s[1..] == p[1..] + [sep] + t;
      SplitAfterPiece(p[1..], t, sep);
      var rest := Split(s[1..], sep);
      assert rest[0] == p[1..] && rest[1..] == Split(t, sep);
      assert Split(s, sep) == [[p[0]] + p[1..]] + Split(t, sep);
      assert [p[0]] + p[1..] == p;
    }
  }

  /** Splitting a join of separator-free pieces gives the pieces back. */
  lemma {:induction false} SplitJoin(parts: seq<string>, sep: char)
    requires |parts| >= 1
    requires forall i :: 0 <= i < |parts| ==> sep !in parts[i]
    ensures Split(Join(parts, sep), sep) == parts
    decreases |parts|
  {
    if |parts| == 1 {
      var p := parts[0];
      JoinSplit(p, sep);
      assert |Split(p, sep)| == 1;
    } else {
      SplitJoin(parts[1..], sep);
      SplitAfterPiece(parts[0], Join(parts[1..], sep), sep);
      assert [parts[0]] + parts[1..] == parts;
    }
  }

  /** A leading separator leaves the last piece to the rest of the string. */
  lemma LastPieceAfterLeadingSeparator(s: string, sep: char)
    requires |s| > 0 && s[0] == sep
    ensures Last(Split(s, sep)) == Last(Split(s[1..], sep))
  {
    var rest := Split(s[1..], sep);
    assert Split(s, sep) == [""] + rest;
  }

  /** A leading ordinary character joins the first piece, which is not the
      last one when a separator follows. */
  lemma LastPieceAfterLeadingChar(s: string, sep: char)
    requires |s| > 0 && s[0] != sep && sep in s[1..]
    ensures Last(Split(s, sep)) == Last(Split(s[1..], sep))
  {
    var rest := Split(s[1..], sep);
    assert |rest| > 1;
    assert Split(s, sep) == [[s[0]] + rest[0]] + rest[1..];
  }

  /** Without any separator the string is its own single piece. */
  lemma LastPieceWithoutSeparator(s: string, sep: char)
    requires |s| > 0 && s[0] != sep && sep !in s[1..]
    ensures Last(Split(s, sep)) == s
  {
    var rest := Split(s[1..], sep);
    JoinSplit(s[1..], sep);
    assert Split(s, sep) == [[s[0]] + rest[0]];
    assert [s[0]] + s[1..] == s;
  }

  /** One step of the split: the first character either is a separator or
      joins the first piece, so the last piece changes only when the first
      character is the only thing in front of it. */
  lemma LastPieceStep(s: string, sep: char)
    requires |s| > 0
    ensures Last(Split(s, sep)) ==
      if s[0] == sep || sep in s[1..] then Last(Split(s[1..], sep)) else s
  {
    if s[0] == sep {
      LastPieceAfterLeadingSeparator(s, sep);
    } else if sep in s[1..] {
      LastPieceAfterLeadingChar(s, sep);
    } else {
      LastPieceWithoutSeparator(s, sep);
    }
  }

  /** The last piece of a split is a suffix of the string, and the whole
      string when there is no separator. */
  lemma {:induction false} LastPieceIsSuffix(s: string, sep: char)
    ensures var d := Last(Split(s, sep));
      && |d| <= |s| && d == s[|s| - |d|..]
      && (sep !in s ==> d == s)
    decreases |s|
  {
    if |s| > 0 {
      var t := s[1..];
      LastPieceIsSuffix(t, sep);
      LastPieceStep(s, sep);
      var d := Last(Split(t, sep));
      if s[0] == sep || sep in t {
        assert s[|s| - |d|..] == t[|t| - |d|..];
        assert sep in s by {
          if s[0] != sep {
            var i :| 0 <= i < |t| && t[i] == sep;
            assert s[i + 1] == sep;
          }
        }
      }
    }
  }

  /** When there is a separator, the last piece directly follows one. */
  lemma {:induction false} LastPieceFollowsSeparator(s: string, sep: char)
    requires sep in s
    ensures var d := Last(Split(s, sep));
      |d| < |s| && s[|s| - |d| - 1] == sep
    decreases |s|
  {
    var t := s[1..];
    LastPieceIsSuffix(t, sep);
    LastPieceStep(s, sep);
    var d := Last(Split(t, sep));
    if sep in t {
      LastPieceFollowsSeparator(t, sep);
      assert s[|s| - |d| - 1] == t[|t| - |d| - 1];
    } else {
      assert s[0] == sep by {
        assert s == [s[0]] + t;
      }
    }
  }

  /** The last piece of a split is the text after the last separator: a
      separator-free suffix that is the whole string when there is no
      separator, and otherwise directly follows one. */
  lemma LastPieceAfterLastSeparator(s: string, sep: char)
    ensures var d := Last(Split(s, sep));
      && |d| <= |s| && d == s[|s| - |d|..] && sep !in d
      && (sep !in s ==> d == s)
      && (sep in s ==> |d| < |s| && s[|s| - |d| - 1] == sep)
  {
    LastPieceIsSuffix(s, sep);
    SplitPiecesFree(s, sep);
    if sep in s {
      LastPieceFollowsSeparator(s, sep);
    }
  }

  /** The text after a separator with no separator after it is the last piece. */
  lemma LastPieceAfter(s: string, sep: char, k: int)
    requires 0 <= k < |s| && s[k] == sep && sep !in s[k + 1..]
    ensures Last(Split(s, sep)) == s[k + 1..]
  {
    LastPieceAfterLastSeparator(s, sep);
  }

  /** The domain of an identifier with an `@` is the text after its last
      `@`: it contains no `@`, and the identifier is a prefix, an `@`, then
      the domain. */
  lemma DomainAfterLastAt(userDetails: string)
    requires '@' in userDetails
    ensures var d := Domain(userDetails);
      var k := |userDetails| - |d| - 1;
      && 0 <= k && userDetails[k] == '@' && '@' !in d
      && userDetails == userDetails[..k] + "@" + d
  {
    LastPieceAfterLastSeparator(userDetails, '@');
    var d := Domain(userDetails);
    var k := |userDetails| - |d| - 1;
    assert userDetails == userDetails[..k] + [userDetails[k]] + userDetails[k + 1..];
  }

  /** Worked cases: the last `@` wins, and a trailing `@` leaves an empty domain. */
  lemma DomainOfNestedAt()
    ensures Domain("a@b@microsoft.com") == "microsoft.com"
  {
    var u := "a@b@microsoft.com";
    LastPieceAfter(u, '@', 3);
    assert u[4..] == "microsoft.com";
  }

  lemma DomainOfTrailingAt()
    ensures Domain("alice@") == ""
  {
    LastPieceAfter("alice@", '@', 5);
  }
}
