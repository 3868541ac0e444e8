/** The three JavaScript string operations the terminal relies on, written
    out as the language defines them: `String.prototype.trim`,
    `split(' ')` with its inverse `join(' ')`, and `toLowerCase` (on the
    ASCII letters). */
module JsText {

  /** The code points `trim` removes: ECMAScript's WhiteSpace (tab, vertical
      tab, form feed, space, no-break space, byte-order mark and the Unicode
      space separators) and LineTerminator (LF, CR, LS, PS). */
  predicate IsWhiteSpace(c: char) {
    || c == '\t' || c == '\n' || c == '\U{000B}' || c == '\U{000C}' || c == '\r'
    || c == ' ' || c == '\U{00A0}' || c == '\U{1680}'
    || ('\U{2000}' <= c <= '\U{200A}')
    || c == '\U{2028}' || c == '\U{2029}' || c == '\U{202F}' || c == '\U{205F}'
    || c == '\U{3000}' || c == '\U{FEFF}'
  }

  /** Every character of `s` is white space. */
  ghost predicate AllWhiteSpace(s: string) {
    forall i :: 0 <= i < |s| ==> IsWhiteSpace(s[i])
  }

  /** `s` neither starts nor ends with white space. */
  ghost predicate Tight(s: string) {
    |s| > 0 ==> !IsWhiteSpace(s[0]) && !IsWhiteSpace(s[|s| - 1])
  }

  /** Leading white space removed: the result is the suffix of `s` that
      starts at its first non-blank character. */
  function TrimStart(s: string): (r: string)
    ensures |r| <= |s| && r == s[|s| - |r|..]
    ensures |r| > 0 ==> !IsWhiteSpace(r[0])
    decreases |s|
  {
    if |s| > 0 && IsWhiteSpace(s[0]) then TrimStart(s[1..]) else s
  }

  /** Trailing white space removed: the result is the prefix of `s` that
      ends at its last non-blank character. */
  function TrimEnd(s: string): (r: string)
    ensures |r| <= |s| && r == s[..|r|]
    ensures |r| > 0 ==> !IsWhiteSpace(r[|r| - 1])
    decreases |s|
  {
    if |s| > 0 && IsWhiteSpace(s[|s| - 1]) then TrimEnd(s[..|s| - 1]) else s
  }

  /** `String.prototype.trim`: white space removed from both ends. */
  function Trim(s: string): (r: string)
    ensures Tight(r)
    ensures |r| <= |s|
  {
    var t := TrimStart(s);
    var r := TrimEnd(t);
    assert |r| > 0 ==> r[0] == t[0];
    r
  }

  /** What `TrimStart` drops is white space. */
  lemma {:induction false} TrimStartDropsBlank(s: string)
    ensures AllWhiteSpace(s[..|s| - |TrimStart(s)|])
    decreases |s|
  {
    if |s| > 0 && IsWhiteSpace(s[0]) {
      TrimStartDropsBlank(s[1..]);
      var k := |s| - |TrimStart(s)|;
      forall i | 0 <= i < k ensures IsWhiteSpace(s[..k][i]) {
        if i == 0 {
          assert s[..k][0] == s[0];
        } else {
          assert s[..k][i] == s[1..][..k - 1][i - 1];
          assert IsWhiteSpace(s[1..][..k - 1][i - 1]);
        }
      }
    }
  }

  /** What `TrimEnd` drops is white space. */
  lemma {:induction false} TrimEndDropsBlank(s: string)
    ensures AllWhiteSpace(s[|TrimEnd(s)|..])
    decreases |s|
  {
    if |s| > 0 && IsWhiteSpace(s[|s| - 1]) {
      var s' := s[..|s| - 1];
      TrimEndDropsBlank(s');
      var k := |TrimEnd(s)|;
      forall i | 0 <= i < |s| - k ensures IsWhiteSpace(s[k..][i]) {
        if k + i < |s| - 1 {
          assert s[k..][i] == s'[k..][i];
        }
      }
    }
  }

  /** Trimming leaves nothing exactly when the string is all white space. */
  lemma TrimBlank(s: string)
    ensures Trim(s) == "" <==> AllWhiteSpace(s)
  {
    var t := TrimStart(s);
    TrimStartDropsBlank(s);
    TrimEndDropsBlank(t);
    assert s == s[..|s| - |t|] + t;
    assert |t| > 0 ==> t[0] == s[|s| - |t|] && t[0] == t[0..][0];
  }

  /** Dropping a blank prefix and stopping at a non-blank character. */
  lemma {:induction false} TrimStartOfBlankPrefix(p: string, m: string)
    requires AllWhiteSpace(p)
    requires |m| == 0 || !IsWhiteSpace(m[0])
    ensures TrimStart(p + m) == m
    decreases |p|
  {
    if |p| > 0 {
      assert (p + m)[1..] == p[1..] + m;
      assert AllWhiteSpace(p[1..]) by {
        forall i | 0 <= i < |p[1..]| ensures IsWhiteSpace(p[1..][i]) {
          assert p[1..][i] == p[i + 1];
        }
      }
      TrimStartOfBlankPrefix(p[1..], m);
    } else {
      assert p + m == m;
    }
  }

  /** Dropping a blank suffix and stopping at a non-blank character. */
  lemma {:induction false} TrimEndOfBlankSuffix(m: string, q: string)
    requires AllWhiteSpace(q)
    requires |m| == 0 || !IsWhiteSpace(m[|m| - 1])
    ensures TrimEnd(m + q) == m
    decreases |q|
  {
    if |q| > 0 {
      var q' := q[..|q| - 1];
      assert (m + q)[..|m + q| - 1] == m + q';
      assert AllWhiteSpace(q') by {
        forall i | 0 <= i < |q'| ensures IsWhiteSpace(q'[i]) {
          assert q'[i] == q[i];
        }
      }
      TrimEndOfBlankSuffix(m, q');
    } else {
      assert m + q == m;
    }
  }

  /** `trim` is the unique way to see a string as blank prefix, tight core,
      blank suffix: it returns the core. */
  lemma TrimReturnsCore(p: string, m: string, q: string)
    requires AllWhiteSpace(p) && AllWhiteSpace(q) && Tight(m)
    ensures Trim(p + m + q) == m
  {
    if |m| == 0 {
      assert p + m + q == p + q;
      assert AllWhiteSpace(p + q) by {
        forall i | 0 <= i < |p + q| ensures IsWhiteSpace((p + q)[i]) {
          if i < |p| { assert (p + q)[i] == p[i]; } else { assert (p + q)[i] == q[i - |p|]; }
        }
      }
    } else {
      assert p + m + q == p + (m + q);
      assert (m + q)[0] == m[0];
      TrimStartOfBlankPrefix(p, m + q);
      TrimEndOfBlankSuffix(m, q);
    }
  }

  /** A string with no white space at either end is its own trim. */
  lemma TrimTight(m: string)
    requires Tight(m)
    ensures Trim(m) == m
  {
    assert AllWhiteSpace("");
    assert "" + m == m && m + "" == m;
    TrimStartOfBlankPrefix("", m);
    TrimEndOfBlankSuffix(m, "");
  }

  /** Trimming twice is trimming once. */
  lemma TrimIdempotent(s: string)
    ensures Trim(Trim(s)) == Trim(s)
  {
    TrimTight(Trim(s));
  }

  /** `split(' ')`: the pieces between single spaces, empty pieces included
      (two adjacent spaces give an empty piece; a string without spaces is
      one piece). */
  function Split(s: string): (parts: seq<string>)
    ensures |parts| >= 1
    decreases |s|
  {
    if |s| == 0 then [""]
    else
      var rest := Split(s[1..]);
      if s[0] == ' ' then [""] + rest
      else [[s[0]] + rest[0]] + rest[1..]
  }

  /** No piece of a split contains a space. */
  lemma {:induction false} SplitPiecesHaveNoSpace(s: string)
    ensures forall i :: 0 <= i < |Split(s)| ==> ' ' !in Split(s)[i]
    decreases |s|
  {
    if |s| > 0 {
      SplitPiecesHaveNoSpace(s[1..]);
      var rest := Split(s[1..]);
      if s[0] != ' ' {
        assert forall c :: c in [s[0]] + rest[0] ==> c == s[0] || c in rest[0];
      }
    }
  }

  /** `join(' ')`: the pieces with one space between neighbours; no pieces
      give the empty string.  The first piece starts the result, and a
      space follows it when there are more. */
  function Join(parts: seq<string>): (s: string)
    ensures |parts| == 0 ==> s == ""
    ensures |parts| >= 1 ==> parts[0] <= s
    ensures |parts| >= 2 ==> |parts[0]| < |s| && s[|parts[0]|] == ' '
    decreases |parts|
  {
    if |parts| == 0 then ""
    else if |parts| == 1 then parts[0]
    else parts[0] + " " + Join(parts[1..])
  }

  /** Splitting loses nothing: joining the pieces restores the string. */
  lemma {:induction false} JoinSplit(s: string)
    ensures Join(Split(s)) == s
    decreases |s|
  {
    if |s| > 0 {
      var rest := Split(s[1..]);
      JoinSplit(s[1..]);
      if s[0] == ' ' {
        assert Split(s) == [""] + rest;
        assert Join(Split(s)) == "" + " " + Join(rest);
        assert s == [s[0]] + s[1..];
      } else {
        var parts := Split(s);
        assert parts == [[s[0]] + rest[0]] + rest[1..];
        if |rest| == 1 {
          assert Join(parts) == [s[0]] + rest[0];
          assert Join(rest) == rest[0];
        } else {
          assert parts[1..] == rest[1..];
          assert Join(parts) == [s[0]] + rest[0] + " " + Join(rest[1..]);
          assert Join(rest) == rest[0] + " " + Join(rest[1..]);
        }
        assert s == [s[0]] + s[1..];
      }
    }
  }

  /** A string without spaces is one piece. */
  lemma {:induction false} SplitNoSpace(a: string)
    requires ' ' !in a
    ensures Split(a) == [a]
    decreases |a|
  {
    if |a| > 0 {
      assert forall i :: 0 <= i < |a[1..]| ==> a[1..][i] == a[i + 1];
      SplitNoSpace(a[1..]);
      assert [a[0]] + a[1..] == a;
    }
  }

  /** The first piece runs up to the first space; the rest is the split of
      what follows it. */
  lemma {:induction false} SplitAtFirstSpace(a: string, t: string)
    requires ' ' !in a
    ensures Split(a + " " + t) == [a] + Split(t)
    decreases |a|
  {
    if |a| == 0 {
      assert a + " " + t == [' '] + t;
      assert ([' '] + t)[1..] == t;
    } else {
      assert forall i :: 0 <= i < |a[1..]| ==> a[1..][i] == a[i + 1];
      SplitAtFirstSpace(a[1..], t);
      var s := a + " " + t;
      assert s[0] == a[0];
      assert s[1..] == a[1..] + " " + t;
      assert [a[0]] + a[1..] == a;
    }
  }

  /** Joining space-free pieces and splitting again gives the pieces back. */
  lemma {:induction false} SplitJoin(parts: seq<string>)
    requires |parts| >= 1
    requires forall i :: 0 <= i < |parts| ==> ' ' !in parts[i]
    ensures Split(Join(parts)) == parts
    decreases |parts|
  {
    if |parts| == 1 {
      SplitNoSpace(parts[0]);
    } else {
      SplitJoin(parts[1..]);
      SplitAtFirstSpace(parts[0], Join(parts[1..]));
      assert [parts[0]] + parts[1..] == parts;
    }
  }

  /** `toLowerCase` of one character, on the ASCII letters. */
  function LowerChar(c: char): (r: char)
    ensures !('A' <= r <= 'Z')
    ensures !('A' <= c <= 'Z') ==> r == c
    ensures 'A' <= c <= 'Z' ==> 'a' <= r <= 'z' && r as int - c as int == 'a' as int - 'A' as int
  {
    if 'A' <= c <= 'Z' then (c as int - 'A' as int + 'a' as int) as char else c
  }

  /** `toLowerCase`: character by character. */
  function Lower(s: string): (r: string)
    ensures |r| == |s|
    ensures forall i :: 0 <= i < |s| ==> r[i] == LowerChar(s[i])
    decreases |s|
  {
    if |s| == 0 then "" else [LowerChar(s[0])] + Lower(s[1..])
  }

  /** Lower-casing neither adds nor removes a space. */
  lemma LowerKeepsSpaces(s: string)
    ensures ' ' in Lower(s) <==> ' ' in s
  {
    assert forall i :: 0 <= i < |s| ==> (Lower(s)[i] == ' ' <==> s[i] == ' ');
  }

  /** A string without upper-case ASCII letters is its own lower case. */
  lemma {:induction false} LowerNoUpper(s: string)
    requires forall i :: 0 <= i < |s| ==> !('A' <= s[i] <= 'Z')
    ensures Lower(s) == s
    decreases |s|
  {
    if |s| > 0 {
      assert forall i :: 0 <= i < |s[1..]| ==> s[1..][i] == s[i + 1];
      LowerNoUpper(s[1..]);
      assert [s[0]] + s[1..] == s;
    }
  }

  /** The lower case has no upper-case ASCII letter. */
  lemma LowerHasNoUpper(s: string)
    ensures forall i :: 0 <= i < |Lower(s)| ==> !('A' <= Lower(s)[i] <= 'Z')
  {
    assert forall i :: 0 <= i < |s| ==> Lower(s)[i] == LowerChar(s[i]);
  }

  /** Lower-casing twice is lower-casing once. */
  lemma LowerIdempotent(s: string)
    ensures Lower(Lower(s)) == Lower(s)
  {
    LowerHasNoUpper(s);
    LowerNoUpper(Lower(s));
  }
}
