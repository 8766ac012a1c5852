/** The whitespace normalisation that every text entry of the to-do app runs
    in its `OnChanged` handler: while the text contains two adjacent spaces,
    replace every non-overlapping pair of spaces by one space. Only the
    space character U+0020 is touched; tabs, newlines and other whitespace
    are kept, and nothing is trimmed. */
module SpaceCollapse {

  /** `strings.Contains(s, "  ")`: some space is immediately followed by another. */
  predicate HasDoubleSpace(s: string)
    decreases |s|
  {
    |s| >= 2 && ((s[0] == ' ' && s[1] == ' ') || HasDoubleSpace(s[1..]))
  }

  /** Index-level statement of "no two adjacent spaces". */
  ghost predicate NoAdjacentSpaces(s: string) {
    forall i :: 0 <= i < |s| - 1 ==> !(s[i] == ' ' && s[i + 1] == ' ')
  }

  /** `strings.Contains(s, "  ")` holds exactly when some index carries a pair of spaces. */
  lemma {:induction false} HasDoubleSpaceIff(s: string)
    ensures HasDoubleSpace(s) <==> !NoAdjacentSpaces(s)
    decreases |s|
  {
    if |s| >= 2 {
      HasDoubleSpaceIff(s[1..]);
      if !(s[0] == ' ' && s[1] == ' ') {
        if !NoAdjacentSpaces(s) {
          var i :| 0 <= i < |s| - 1 && s[i] == ' ' && s[i + 1] == ' ';
          assert i > 0;
          assert s[1..][i - 1] == ' ' && s[1..][i] == ' ';
        }
        if !NoAdjacentSpaces(s[1..]) {
          var i :| 0 <= i < |s[1..]| - 1 && s[1..][i] == ' ' && s[1..][i + 1] == ' ';
          assert s[i + 1] == ' ' && s[i + 2] == ' ';
        }
      }
    }
  }

  /** One pass of `strings.ReplaceAll(s, "  ", " ")`: pairs of spaces are found
      left to right without overlap, and each pair becomes one space. */
  function ReplaceDoubleSpaces(s: string): (r: string)
    ensures |r| <= |s|
    ensures HasDoubleSpace(s) ==> |r| < |s|
    ensures !HasDoubleSpace(s) ==> r == s
    ensures r != [] <==> s != []
    ensures s != [] ==> r[0] == s[0]
    decreases |s|
  {
    if |s| >= 2 && s[0] == ' ' && s[1] == ' ' then [' '] + ReplaceDoubleSpaces(s[2..])
    else if s == [] then []
    else [s[0]] + ReplaceDoubleSpaces(s[1..])
  }

  /** The loop `for strings.Contains(text, "  ") { text = strings.ReplaceAll(text, "  ", " ") }`
      as a recursive function: it terminates because every pass that finds a pair
      makes the text shorter. */
  function Collapse(s: string): (r: string)
    ensures !HasDoubleSpace(r)
    ensures |r| <= |s|
    decreases |s|
  {
    if HasDoubleSpace(s) then Collapse(ReplaceDoubleSpaces(s)) else s
  }

  /** Independent reference definition: every maximal run of spaces becomes a
      single space, every other character is kept. */
  function Squeeze(s: string): string
    decreases |s|
  {
    if |s| >= 2 && s[0] == ' ' && s[1] == ' ' then Squeeze(s[1..])
    else if s == [] then []
    else [s[0]] + Squeeze(s[1..])
  }

  /** The characters of `s` other than U+0020, in order. */
  function NonSpaces(s: string): string
    decreases |s|
  {
    if s == [] then []
    else (if s[0] == ' ' then [] else [s[0]]) + NonSpaces(s[1..])
  }

  /** A single ReplaceAll pass does not change the squeezed form. */
  lemma {:induction false} SqueezeReplace(s: string)
    ensures Squeeze(ReplaceDoubleSpaces(s)) == Squeeze(s)
    decreases |s|
  {
    if |s| >= 2 && s[0] == ' ' && s[1] == ' ' {
      var rest := s[2..];
      var t := ReplaceDoubleSpaces(rest);
      SqueezeReplace(rest);
      assert ReplaceDoubleSpaces(s) == [' '] + t;
      assert ([' '] + t)[1..] == t;
      assert s[1..] == [' '] + rest;
      assert ([' '] + rest)[1..] == rest;
      if rest != [] && rest[0] == ' ' {
        assert Squeeze([' '] + t) == Squeeze(t);
        assert Squeeze([' '] + rest) == Squeeze(rest);
      } else {
        assert Squeeze([' '] + t) == [' '] + Squeeze(t);
        assert Squeeze([' '] + rest) == [' '] + Squeeze(rest);
      }
    } else if s != [] {
      var t := ReplaceDoubleSpaces(s[1..]);
      SqueezeReplace(s[1..]);
      assert ReplaceDoubleSpaces(s) == [s[0]] + t;
      assert ([s[0]] + t)[1..] == t;
      assert Squeeze([s[0]] + t) == [s[0]] + Squeeze(t);
    }
  }

  /** A text without a pair of spaces is already squeezed. */
  lemma {:induction false} SqueezeFixed(s: string)
    requires !HasDoubleSpace(s)
    ensures Squeeze(s) == s
    decreases |s|
  {
    if s != [] {
      SqueezeFixed(s[1..]);
    }
  }

  /** The loop computes exactly the run-squeezing reference. */
  lemma {:induction false} CollapseIsSqueeze(s: string)
    ensures Collapse(s) == Squeeze(s)
    decreases |s|
  {
    if HasDoubleSpace(s) {
      CollapseIsSqueeze(ReplaceDoubleSpaces(s));
      SqueezeReplace(s);
    } else {
      SqueezeFixed(s);
    }
  }

  /** The collapsed text has no index holding two adjacent spaces. */
  lemma CollapseNoAdjacentSpaces(s: string)
    ensures NoAdjacentSpaces(Collapse(s))
  {
    HasDoubleSpaceIff(Collapse(s));
  }

  /** Running the handler on its own output changes nothing. */
  lemma CollapseIdempotent(s: string)
    ensures Collapse(Collapse(s)) == Collapse(s)
  {
  }

  /** The loop body never runs exactly when the text has no pair of spaces. */
  lemma CollapseUnchangedIff(s: string)
    ensures Collapse(s) == s <==> !HasDoubleSpace(s)
  {
  }

  lemma {:induction false} SqueezeKeepsNonSpaces(s: string)
    ensures NonSpaces(Squeeze(s)) == NonSpaces(s)
    decreases |s|
  {
    if |s| >= 2 && s[0] == ' ' && s[1] == ' ' {
      SqueezeKeepsNonSpaces(s[1..]);
    } else if s != [] {
      SqueezeKeepsNonSpaces(s[1..]);
      var t := Squeeze(s[1..]);
      assert ([s[0]] + t)[0] == s[0];
      assert ([s[0]] + t)[1..] == t;
    }
  }

  /** Collapsing deletes only spaces: every other character, tabs and newlines
      included, survives in its original order. */
  lemma CollapseKeepsNonSpaces(s: string)
    ensures NonSpaces(Collapse(s)) == NonSpaces(s)
  {
    CollapseIsSqueeze(s);
    SqueezeKeepsNonSpaces(s);
  }

  lemma {:induction false} SqueezeEnds(s: string)
    requires s != []
    ensures Squeeze(s) != []
    ensures Squeeze(s)[0] == s[0]
    ensures Squeeze(s)[|Squeeze(s)| - 1] == s[|s| - 1]
    decreases |s|
  {
    if |s| >= 2 {
      SqueezeEnds(s[1..]);
    }
  }

  /** Collapsing does not trim: the first and the last character are kept,
      so a leading or trailing single space survives. */
  lemma CollapseKeepsEnds(s: string)
    requires s != []
    ensures Collapse(s) != []
    ensures Collapse(s)[0] == s[0]
    ensures Collapse(s)[|Collapse(s)| - 1] == s[|s| - 1]
  {
    CollapseIsSqueeze(s);
    SqueezeEnds(s);
  }

  /** The `OnChanged` loop itself: the text is reassigned until no pair of
      spaces remains (ToDoList_App/main.go lines 61-63, 72-74, 176-178, 184-186). */
  method CollapseSpaces(text: string) returns (r: string)
    ensures r == Collapse(text)
    ensures !HasDoubleSpace(r)
  {
    r := text;
    while HasDoubleSpace(r)
      invariant Collapse(r) == Collapse(text)
      decreases |r|
    {
      r := ReplaceDoubleSpaces(r);
    }
  }
}
