/** The search index that publishing stores with an NPC:
      name.replace(/[\W_]+/g, " ").toLowerCase().split(" ")
    Without the `u` flag, [\W_] matches every character except ASCII letters and digits,
    so only those survive the replacement and ASCII lower-casing is exact. */
module SearchString {
  import opened Text

  /** The prefix of characters that one global match of [\W_]+ consumes is dropped. */
  function SkipNonWord(s: string): (r: string)
    ensures |r| <= |s| && r == s[|s| - |r|..]
    ensures r == [] || IsAsciiAlnum(r[0])
    ensures forall i :: 0 <= i < |s| - |r| ==> !IsAsciiAlnum(s[i])
  {
    if s == [] || IsAsciiAlnum(s[0]) then s else SkipNonWord(s[1..])
  }

  /** name.replace(/[\W_]+/g, " "): scanning left to right, every maximal run of
      characters other than ASCII letters and digits becomes a single space. */
  function CollapseNonWord(s: string): (r: string)
    ensures |r| <= |s|
    ensures r == [] <==> s == []
    decreases |s|
  {
    if s == [] then []
    else if IsAsciiAlnum(s[0]) then [s[0]] + CollapseNonWord(s[1..])
    else [' '] + CollapseNonWord(SkipNonWord(s[1..]))
  }

  /** A string over ASCII letters, digits and single spaces. */
  predicate Collapsed(t: string) {
    && (forall i :: 0 <= i < |t| ==> IsAsciiAlnum(t[i]) || t[i] == ' ')
    && (forall i :: 0 <= i < |t| - 1 ==> !(t[i] == ' ' && t[i + 1] == ' '))
  }

  // ---------------------------------------------------------------------------
  // An independent reference: replace each character, then squeeze runs of spaces.

  /** Every character that is not an ASCII letter or digit becomes a space. */
  function SpaceOut(s: string): (r: string)
    ensures |r| == |s|
    decreases |s|
  {
    if s == [] then [] else [if IsAsciiAlnum(s[0]) then s[0] else ' '] + SpaceOut(s[1..])
  }

  /** Drops every space that directly follows another space. */
  function Squeeze(t: string): string
    decreases |t|
  {
    if |t| <= 1 then t
    else if t[0] == ' ' && t[1] == ' ' then Squeeze(t[1..])
    else [t[0]] + Squeeze(t[1..])
  }

  lemma {:induction false} SqueezeNonSpaceHead(c: char, t: string)
    requires c != ' '
    ensures Squeeze([c] + t) == [c] + Squeeze(t)
  {
  }

  /** Spaces produced by a run of non-word characters squeeze into the first of them. */
  lemma {:induction false} SqueezeSkipsRun(s: string)
    ensures Squeeze([' '] + SpaceOut(s)) == Squeeze([' '] + SpaceOut(SkipNonWord(s)))
    decreases |s|
  {
    if s != [] && !IsAsciiAlnum(s[0]) {
      var u := [' '] + SpaceOut(s);
      assert u[0] == ' ' && u[1] == ' ';
      assert u[1..] == [' '] + SpaceOut(s[1..]);
      SqueezeSkipsRun(s[1..]);
    }
  }

  lemma {:induction false} SqueezeSpaceHead(t: string)
    requires t == [] || t[0] != ' '
    ensures Squeeze([' '] + t) == [' '] + Squeeze(t)
  {
  }

  /** The scanning replacement agrees with the reference "replace each, then squeeze". */
  lemma {:induction false} CollapseIsSqueezedSpaceOut(s: string)
    ensures CollapseNonWord(s) == Squeeze(SpaceOut(s))
    decreases |s|
  {
    if s != [] {
      if IsAsciiAlnum(s[0]) {
        calc {
          Squeeze(SpaceOut(s));
          Squeeze([s[0]] + SpaceOut(s[1..]));
          { SqueezeNonSpaceHead(s[0], SpaceOut(s[1..])); }
          [s[0]] + Squeeze(SpaceOut(s[1..]));
          { CollapseIsSqueezedSpaceOut(s[1..]); }
          [s[0]] + CollapseNonWord(s[1..]);
        }
      } else {
        var u := SkipNonWord(s[1..]);
        calc {
          Squeeze(SpaceOut(s));
          Squeeze([' '] + SpaceOut(s[1..]));
          { SqueezeSkipsRun(s[1..]); }
          Squeeze([' '] + SpaceOut(u));
          { SqueezeSpaceHead(SpaceOut(u)); }
          [' '] + Squeeze(SpaceOut(u));
          { CollapseIsSqueezedSpaceOut(u); }
          [' '] + CollapseNonWord(u);
        }
      }
    }
  }

  /** The replacement is empty exactly when the name is, and it starts with a space
      exactly when the name starts with a non-word character. */
  lemma CollapseHead(s: string)
    ensures CollapseNonWord(s) == [] <==> s == []
    ensures CollapseNonWord(s) != [] ==> (CollapseNonWord(s)[0] == ' ' <==> !IsAsciiAlnum(s[0]))
    ensures CollapseNonWord(s) != [] ==> IsAsciiAlnum(s[0]) ==> CollapseNonWord(s)[0] == s[0]
  {
  }

  /** The replacement ends with a space exactly when the name ends with a non-word
      character. */
  lemma {:induction false} CollapseLast(s: string)
    requires s != []
    ensures CollapseNonWord(s) != []
    ensures CollapseNonWord(s)[|CollapseNonWord(s)| - 1] == ' ' <==> !IsAsciiAlnum(s[|s| - 1])
    decreases |s|
  {
    var r := CollapseNonWord(s);
    var head: char, rest: string;
    if IsAsciiAlnum(s[0]) {
      head, rest := s[0], s[1..];
      assert rest != [] ==> rest[|rest| - 1] == s[|s| - 1];
      assert rest == [] ==> IsAsciiAlnum(s[|s| - 1]);
    } else {
      head, rest := ' ', SkipNonWord(s[1..]);
      SkipNonWordLast(s);
    }
    var t := CollapseNonWord(rest);
    assert r == [head] + t;
    if rest != [] {
      CollapseLast(rest);
      assert r[|r| - 1] == t[|t| - 1];
    }
  }

  /** After a non-word first character, the rest of the scan ends where the name ends,
      or the name ends in the skipped run. */
  lemma SkipNonWordLast(s: string)
    requires s != [] && !IsAsciiAlnum(s[0])
    ensures SkipNonWord(s[1..]) != [] ==> SkipNonWord(s[1..])[|SkipNonWord(s[1..])| - 1] == s[|s| - 1]
    ensures SkipNonWord(s[1..]) == [] ==> !IsAsciiAlnum(s[|s| - 1])
  {
    var u := s[1..];
    var rest := SkipNonWord(u);
    assert rest == u[|u| - |rest|..];
    if rest == [] && |u| > 0 {
      assert !IsAsciiAlnum(u[|u| - 1]);
    }
  }

  /** A letter, a digit, or a space not followed by a space can be put in front of a
      collapsed string. */
  lemma CollapsedCons(c: char, t: string)
    requires Collapsed(t)
    requires IsAsciiAlnum(c) || (c == ' ' && (t == [] || t[0] != ' '))
    ensures Collapsed([c] + t)
  {
    var r := [c] + t;
    forall i | 0 <= i < |r| - 1
      ensures !(r[i] == ' ' && r[i + 1] == ' ')
    {
      if i > 0 {
        assert r[i] == t[i - 1] && r[i + 1] == t[i];
      }
    }
  }

  /** The replacement leaves only letters, digits and single spaces. */
  lemma {:induction false} CollapseCharset(s: string)
    ensures Collapsed(CollapseNonWord(s))
    decreases |s|
  {
    if s != [] {
      if IsAsciiAlnum(s[0]) {
        CollapseCharset(s[1..]);
        CollapsedCons(s[0], CollapseNonWord(s[1..]));
      } else {
        var u := SkipNonWord(s[1..]);
        CollapseCharset(u);
        CollapseHead(u);
        CollapsedCons(' ', CollapseNonWord(u));
      }
    }
  }

  /** The replacement leaves only letters, digits and single spaces; a space stands
      first (last) exactly when the name starts (ends) with a non-word character. */
  lemma CollapseShape(s: string)
    ensures Collapsed(CollapseNonWord(s))
    ensures CollapseNonWord(s) == [] <==> s == []
    ensures CollapseNonWord(s) != [] ==> (CollapseNonWord(s)[0] == ' ' <==> !IsAsciiAlnum(s[0]))
    ensures CollapseNonWord(s) != [] ==>
      (CollapseNonWord(s)[|CollapseNonWord(s)| - 1] == ' ' <==> !IsAsciiAlnum(s[|s| - 1]))
  {
    CollapseHead(s);
    CollapseCharset(s);
    if s != [] {
      CollapseLast(s);
    }
  }

  /** The tail of a collapsed string is collapsed, and a leading space is followed by
      a letter or a digit, if by anything. */
  lemma CollapsedTail(t: string)
    requires Collapsed(t) && t != []
    ensures Collapsed(t[1..])
    ensures IsAsciiAlnum(t[0]) || t[0] == ' '
    ensures t[0] == ' ' ==> t[1..] == [] || IsAsciiAlnum(t[1..][0])
  {
    if |t| > 1 {
      assert !(t[0] == ' ' && t[1] == ' ');
    }
  }

  /** Applied to an already collapsed string the replacement changes nothing. */
  lemma {:induction false} CollapseFixesCollapsed(t: string)
    requires Collapsed(t)
    ensures CollapseNonWord(t) == t
    decreases |t|
  {
    if t != [] {
      var rest := t[1..];
      CollapsedTail(t);
      CollapseFixesCollapsed(rest);
      if IsAsciiAlnum(t[0]) {
        assert CollapseNonWord(t) == [t[0]] + CollapseNonWord(rest);
      } else {
        assert SkipNonWord(rest) == rest;
        assert CollapseNonWord(t) == [' '] + CollapseNonWord(rest);
      }
      assert t == [t[0]] + rest;
    }
  }

  /** The replacement is idempotent. */
  lemma CollapseIdempotent(s: string)
    ensures CollapseNonWord(CollapseNonWord(s)) == CollapseNonWord(s)
  {
    CollapseCharset(s);
    CollapseFixesCollapsed(CollapseNonWord(s));
  }

  // ---------------------------------------------------------------------------
  // String.prototype.split with a one-character separator, and its inverse.

  /** s.split(sep): the pieces between separators, empty pieces included;
      "".split(" ") is [""]. */
  function Split(s: string, sep: char): (r: seq<string>)
    ensures |r| >= 1
    ensures forall i :: 0 <= i < |r| ==> sep !in r[i]
    decreases |s|
  {
    if s == [] then [[]]
    else if s[0] == sep then [[]] + Split(s[1..], sep)
    else
      var rest := Split(s[1..], sep);
      [[s[0]] + rest[0]] + rest[1..]
  }

  /** pieces.join(sep). */
  function Join(pieces: seq<string>, sep: char): string
    decreases |pieces|
  {
    if pieces == [] then []
    else if |pieces| == 1 then pieces[0]
    else pieces[0] + [sep] + Join(pieces[1..], sep)
  }

  /** Joining the pieces of a split with the same separator gives the string back. */
  lemma {:induction false} JoinSplit(s: string, sep: char)
    ensures Join(Split(s, sep), sep) == s
    decreases |s|
  {
    if s != [] {
      var rest := Split(s[1..], sep);
      JoinSplit(s[1..], sep);
      if s[0] == sep {
        assert Split(s, sep)[1..] == rest;
        assert s == [sep] + s[1..];
      } else {
        var r := Split(s, sep);
        assert r[1..] == rest[1..];
        if |rest| == 1 {
          assert s == [s[0]] + rest[0];
        } else {
          assert Join(rest, sep) == rest[0] + [sep] + Join(rest[1..], sep);
          assert s == [s[0]] + s[1..];
        }
      }
    }
  }

  lemma {:induction false} SplitFree(t: string, sep: char)
    requires sep !in t
    ensures Split(t, sep) == [t]
    decreases |t|
  {
    if t != [] {
      SplitFree(t[1..], sep);
      assert t == [t[0]] + t[1..];
    }
  }

  lemma {:induction false} SplitAfterPiece(t: string, sep: char, u: string)
    requires sep !in t
    ensures Split(t + [sep] + u, sep) == [t] + Split(u, sep)
    decreases |t|
  {
    var s := t + [sep] + u;
    if t == [] {
      assert s[1..] == u;
    } else {
      assert s[1..] == t[1..] + [sep] + u;
      SplitAfterPiece(t[1..], sep, u);
      assert t == [t[0]] + t[1..];
    }
  }

  /** Splitting a join of separator-free pieces gives the pieces back. */
  lemma {:induction false} SplitJoin(pieces: seq<string>, sep: char)
    requires |pieces| >= 1
    requires forall i :: 0 <= i < |pieces| ==> sep !in pieces[i]
    ensures Split(Join(pieces, sep), sep) == pieces
    decreases |pieces|
  {
    if |pieces| == 1 {
      SplitFree(pieces[0], sep);
    } else {
      SplitJoin(pieces[1..], sep);
      SplitAfterPiece(pieces[0], sep, Join(pieces[1..], sep));
      assert pieces == [pieces[0]] + pieces[1..];
    }
  }

  /** Without two adjacent separators, every piece strictly between the first and
      the last is non-empty; the first piece is empty exactly when s is empty or
      starts with the separator. */
  lemma {:induction false} SplitInnerPiecesNonEmpty(s: string, sep: char)
    requires forall i :: 0 <= i < |s| - 1 ==> !(s[i] == sep && s[i + 1] == sep)
    ensures forall k :: 0 < k < |Split(s, sep)| - 1 ==> Split(s, sep)[k] != []
    ensures Split(s, sep)[0] == [] <==> (s == [] || s[0] == sep)
    decreases |s|
  {
    if s != [] {
      var r := Split(s, sep);
      var rest := Split(s[1..], sep);
      assert forall i :: 0 <= i < |s[1..]| - 1 ==> !(s[1..][i] == sep && s[1..][i + 1] == sep) by {
        forall i | 0 <= i < |s[1..]| - 1 ensures !(s[1..][i] == sep && s[1..][i + 1] == sep) {
          assert s[1..][i] == s[i + 1] && s[1..][i + 1] == s[i + 2];
        }
      }
      SplitInnerPiecesNonEmpty(s[1..], sep);
      if s[0] == sep {
        assert r == [[]] + rest;
        if |s| > 1 {
          assert s[1] != sep;
          assert rest[0] != [];
        }
      } else {
        assert r == [[s[0]] + rest[0]] + rest[1..];
      }
    }
  }

  /** Removing the last piece of a split: the last piece is empty exactly when s is
      empty or ends with the separator. */
  lemma {:induction false} SplitLastPiece(s: string, sep: char)
    ensures Split(s, sep)[|Split(s, sep)| - 1] == [] <==> (s == [] || s[|s| - 1] == sep)
    decreases |s|
  {
    if s != [] {
      var rest := Split(s[1..], sep);
      SplitLastPiece(s[1..], sep);
      if s[0] != sep && |rest| == 1 {
        assert Split(s, sep) == [[s[0]] + rest[0]];
        if s[1..] != [] {
          assert s[1..][|s[1..]| - 1] == s[|s| - 1];
          assert rest[0] != [] by {
            assert Join(rest, sep) == rest[0];
            JoinSplit(s[1..], sep);
          }
        }
      } else if s[1..] != [] {
        assert s[1..][|s[1..]| - 1] == s[|s| - 1];
      }
    }
  }

  // ---------------------------------------------------------------------------
  // The searchString of a published NPC.

  /** name.replace(/[\W_]+/g, " ").toLowerCase().split(" ") */
  function SearchTokens(name: string): (tokens: seq<string>)
    ensures |tokens| >= 1
    ensures forall k :: 0 <= k < |tokens| ==> ' ' !in tokens[k]
  {
    Split(Lower(CollapseNonWord(name)), ' ')
  }

  /** The lower-cased text of the replacement keeps its shape. */
  lemma LowerCollapsed(t: string)
    requires Collapsed(t)
    ensures Collapsed(Lower(t))
    ensures forall i :: 0 <= i < |t| ==> ('a' <= Lower(t)[i] <= 'z' || IsDigit(Lower(t)[i]) || Lower(t)[i] == ' ')
  {
  }

  /** The tokens joined with one space are the lower-cased name in which every maximal
      run of characters other than ASCII letters and digits has become one space. */
  lemma TokensJoin(name: string)
    ensures Join(SearchTokens(name), ' ') == Lower(Squeeze(SpaceOut(name)))
  {
    JoinSplit(Lower(CollapseNonWord(name)), ' ');
    CollapseIsSqueezedSpaceOut(name);
  }

  /** A token of the index: lower-case ASCII letters and digits only. */
  predicate IsIndexWord(t: string) {
    forall i :: 0 <= i < |t| ==> 'a' <= t[i] <= 'z' || IsDigit(t[i])
  }

  /** Every token holds only lower-case ASCII letters and digits. */
  lemma TokensAreIndexWords(name: string)
    ensures forall k :: 0 <= k < |SearchTokens(name)| ==> IsIndexWord(SearchTokens(name)[k])
  {
    var c := CollapseNonWord(name);
    var t := Lower(c);
    CollapseShape(name);
    LowerCollapsed(c);
    var tokens := SearchTokens(name);
    forall k | 0 <= k < |tokens| ensures IsIndexWord(tokens[k]) {
      forall i | 0 <= i < |tokens[k]| ensures 'a' <= tokens[k][i] <= 'z' || IsDigit(tokens[k][i]) {
        TokenCharsFromText(t, k, i);
      }
    }
  }

  /** No token between the first and the last is empty. */
  lemma TokensInnerNonEmpty(name: string)
    ensures forall k :: 0 < k < |SearchTokens(name)| - 1 ==> SearchTokens(name)[k] != []
  {
    var c := CollapseNonWord(name);
    CollapseCharset(name);
    LowerCollapsed(c);
    SplitInnerPiecesNonEmpty(Lower(c), ' ');
  }

  /** The first token is empty exactly when the name is empty or starts with a
      character other than an ASCII letter or digit. */
  lemma TokensFirstEmpty(name: string)
    ensures SearchTokens(name)[0] == [] <==> (name == [] || !IsAsciiAlnum(name[0]))
  {
    var c := CollapseNonWord(name);
    var t := Lower(c);
    CollapseCharset(name);
    LowerCollapsed(c);
    SplitInnerPiecesNonEmpty(t, ' ');
    CollapseHead(name);
    if name != [] {
      assert t[0] == LowerChar(c[0]);
    }
  }

  /** The last token is empty exactly when the name is empty or ends with a character
      other than an ASCII letter or digit. */
  lemma TokensLastEmpty(name: string)
    ensures SearchTokens(name)[|SearchTokens(name)| - 1] == [] <==>
      (name == [] || !IsAsciiAlnum(name[|name| - 1]))
  {
    var c := CollapseNonWord(name);
    var tokens := Split(Lower(c), ' ');
    assert SearchTokens(name) == tokens;
    LastPieceOfLower(c);
    assert tokens[|tokens| - 1] == [] <==> (c == [] || c[|c| - 1] == ' ');
    if name == [] {
      assert c == [];
    } else {
      CollapseLast(name);
      assert c != [] && (c[|c| - 1] == ' ' <==> !IsAsciiAlnum(name[|name| - 1]));
    }
  }

  /** Lower-casing keeps spaces where they are, so the last piece of the split is
      empty exactly when the text is empty or ends with a space. */
  lemma LastPieceOfLower(c: string)
    ensures Split(Lower(c), ' ')[|Split(Lower(c), ' ')| - 1] == [] <==> (c == [] || c[|c| - 1] == ' ')
  {
    var t := Lower(c);
    SplitLastPiece(t, ' ');
    if c != [] {
      assert t[|t| - 1] == LowerChar(c[|c| - 1]);
    }
  }

  /** Only the first and the last token can be empty, and each is empty exactly when
      the name is empty or starts (ends) with a character other than an ASCII letter
      or digit. */
  lemma TokensEmptyOnlyAtEnds(name: string)
    ensures forall k :: 0 < k < |SearchTokens(name)| - 1 ==> SearchTokens(name)[k] != []
    ensures SearchTokens(name)[0] == [] <==> (name == [] || !IsAsciiAlnum(name[0]))
    ensures SearchTokens(name)[|SearchTokens(name)| - 1] == [] <==>
      (name == [] || !IsAsciiAlnum(name[|name| - 1]))
  {
    TokensInnerNonEmpty(name);
    TokensFirstEmpty(name);
    TokensLastEmpty(name);
  }

  /** Every character of a piece of Split(t, ' ') is a non-space character of t. */
  lemma {:induction false} TokenCharsFromText(t: string, k: nat, i: nat)
    requires k < |Split(t, ' ')| && i < |Split(t, ' ')[k]|
    ensures exists j :: 0 <= j < |t| && t[j] == Split(t, ' ')[k][i]
    decreases |t|
  {
    var r := Split(t, ' ');
    var rest := Split(t[1..], ' ');
    if t[0] == ' ' {
      TokenCharsFromText(t[1..], k - 1, i);
      var j :| 0 <= j < |t[1..]| && t[1..][j] == rest[k - 1][i];
      assert t[j + 1] == r[k][i];
    } else if k == 0 && i == 0 {
      assert t[0] == r[0][0];
    } else if k == 0 {
      TokenCharsFromText(t[1..], 0, i - 1);
      var j :| 0 <= j < |t[1..]| && t[1..][j] == rest[0][i - 1];
      assert t[j + 1] == r[0][i];
    } else {
      assert r[k] == rest[k];
      TokenCharsFromText(t[1..], k, i);
      var j :| 0 <= j < |t[1..]| && t[1..][j] == rest[k][i];
      assert t[j + 1] == r[k][i];
    }
  }
}
