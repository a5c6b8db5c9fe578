/**
 The attribute tests as the code computes them, and that they decide what the operators mean. For `~=` the code
 looks for the check between blanks; for a check that is empty or has blanks, which the standard never finds, it may
 find it all the same.
 */
module AttributeTests {
  import opened Sequences
  import opened Selectors

  predicate Occurs(needle: string, hay: string) {
    exists i :: 0 <= i <= |hay| && needle <= hay[i..]
  }

  predicate AttrHolds(value: Option<string>, operator: AttrOperator, check: string) {
    match value
    case None => operator == NotEquals
    case Some(v) =>
      match operator
      case Exists => true
      case Equals => v == check
      case NotEquals => v != check
      case StartsWith => check != [] && check <= v
      case Includes => check != [] && Occurs(check, v)
      case EndsWith => check != [] && |check| <= |v| && v[|v| - |check|..] == check
      case Word => Occurs(" " + check + " ", " " + CollapseBlanks(v) + " ")
      case Dash => v == check || check + "-" <= v
  }

  // ---------------------------------------------------------------- parts of a text

  lemma OccursMeaning(needle: string, hay: string)
    ensures Occurs(needle, hay) <==> exists front: string, back: string :: hay == front + needle + back
  {
    if Occurs(needle, hay) {
      var i :| 0 <= i <= |hay| && needle <= hay[i..];
      assert hay == hay[..i] + needle + hay[i + |needle|..];
    }
    if front: string, back: string :| hay == front + needle + back {
      assert hay[|front|..] == needle + back;
    }
  }

  lemma StartMeaning(v: string, check: string)
    ensures check <= v <==> exists rest: string :: v == check + rest
  {
    if check <= v {
      assert v == check + v[|check|..];
    }
  }

  lemma EndMeaning(v: string, check: string)
    ensures |check| <= |v| && v[|v| - |check|..] == check <==> exists front: string :: v == front + check
  {
    if |check| <= |v| && v[|v| - |check|..] == check {
      assert v == v[..|v| - |check|] + check;
    }
    if front: string :| v == front + check {
      assert v[|v| - |check|..] == check;
    }
  }

  // ---------------------------------------------------------------- words

  /** The text begins with the word, and there the word ends. */
  predicate BeginsWord(s: string, check: string) {
    check <= s && (|s| == |check| || Blank(s[|check|]))
  }

  /** The word stands in the text, which itself stands behind a blank or not. */
  predicate WordIn(s: string, check: string, behindBlank: bool) {
    (behindBlank && BeginsWord(s, check)) || (s != "" && WordIn(s[1..], check, Blank(s[0])))
  }

  /** The word stands between front and back. */
  predicate Stands(s: string, check: string, behindBlank: bool, front: string, back: string) {
    && s == front + check + back && (back == "" || Blank(back[0]))
    && if front == "" then behindBlank else Blank(front[|front| - 1])
  }

  lemma {:induction false} WordFound(s: string, check: string, behindBlank: bool)
    requires WordIn(s, check, behindBlank)
    ensures exists front, back :: Stands(s, check, behindBlank, front, back)
  {
    if behindBlank && BeginsWord(s, check) {
      assert s == "" + check + s[|check|..];
      assert Stands(s, check, behindBlank, "", s[|check|..]);
    } else {
      WordFound(s[1..], check, Blank(s[0]));
      var front, back :| Stands(s[1..], check, Blank(s[0]), front, back);
      assert s == ([s[0]] + front) + check + back;
      assert Stands(s, check, behindBlank, [s[0]] + front, back);
    }
  }

  lemma {:induction false} WordStands(s: string, check: string, behindBlank: bool, front: string, back: string)
    requires Stands(s, check, behindBlank, front, back)
    ensures WordIn(s, check, behindBlank)
    decreases |front|
  {
    if front == "" {
      assert s == check + back;
    } else {
      assert s[1..] == front[1..] + check + back;
      WordStands(s[1..], check, Blank(s[0]), front[1..], back);
    }
  }

  lemma WordInMeaning(s: string, check: string)
    ensures WordIn(s, check, true) <==> HasWord(s, check)
  {
    if WordIn(s, check, true) {
      WordFound(s, check, true);
      var front, back :| Stands(s, check, true, front, back);
      assert StandsIn(s, check, front, back);
    }
    if HasWord(s, check) {
      var front, back :| StandsIn(s, check, front, back);
      WordStands(s, check, true, front, back);
    }
  }

  /** Collapsing blanks changes no word. */
  lemma {:induction false} BeginsWordCollapsed(s: string, check: string)
    requires forall i :: 0 <= i < |check| ==> !Blank(check[i])
    ensures BeginsWord(CollapseBlanks(s), check) <==> BeginsWord(s, check)
  {
    if s != "" && check != "" && !Blank(s[0]) {
      BeginsWordCollapsed(s[1..], check[1..]);
      var c := CollapseBlanks(s);
      assert c[1..] == CollapseBlanks(s[1..]);
      assert check <= s <==> check[0] == s[0] && check[1..] <= s[1..];
      assert check <= c <==> check[0] == c[0] && check[1..] <= c[1..];
    } else {
      CollapsedStart(s);
    }
  }

  lemma {:induction false} CollapsedStart(s: string)
    ensures CollapseBlanks(s) == "" <==> s == ""
    ensures s != "" ==> (Blank(CollapseBlanks(s)[0]) <==> Blank(s[0]))
  {
    if s != "" { CollapsedStart(s[1..]); }
  }

  lemma {:induction false} WordInCollapsed(s: string, check: string, behindBlank: bool)
    requires IsWord(check)
    ensures WordIn(CollapseBlanks(s), check, behindBlank) <==> WordIn(s, check, behindBlank)
  {
    if s != "" {
      BeginsWordCollapsed(s, check);
      WordInCollapsed(s[1..], check, Blank(s[0]));
      CollapsedStart(s[1..]);
      var c := CollapseBlanks(s);
      if Blank(s[0]) && |s| > 1 && Blank(s[1]) {
        assert !BeginsWord(c, check) && !BeginsWord(s, check);
      } else {
        assert c[1..] == CollapseBlanks(s[1..]) && Blank(c[0]) == Blank(s[0]);
      }
    }
  }

  /** The only blanks left are spaces. */
  lemma {:induction false} CollapsedBlanks(s: string)
    ensures forall i :: 0 <= i < |CollapseBlanks(s)| && Blank(CollapseBlanks(s)[i]) ==> CollapseBlanks(s)[i] == ' '
  {
    if s != "" { CollapsedBlanks(s[1..]); }
  }

  lemma OccursOnwards(needle: string, hay: string)
    requires hay != ""
    ensures Occurs(needle, hay) <==> needle <= hay || Occurs(needle, hay[1..])
  {
    if Occurs(needle, hay) {
      var i :| 0 <= i <= |hay| && needle <= hay[i..];
      if i > 0 { assert hay[1..][i - 1..] == hay[i..]; }
    }
    if Occurs(needle, hay[1..]) {
      var i :| 0 <= i <= |hay[1..]| && needle <= hay[1..][i..];
      assert hay[1..][i..] == hay[i + 1..];
    }
    assert hay[0..] == hay;
  }

  /** Between spaces a word is found where it stands as a word. */
  lemma {:induction false} FoundBetweenSpaces(p: char, c: string, check: string)
    requires IsWord(check) && forall i :: 0 <= i < |c| && Blank(c[i]) ==> c[i] == ' '
    ensures Occurs(" " + check + " ", [p] + c + " ") <==> WordIn(c, check, p == ' ')
    decreases |c|
  {
    hide Occurs;
    var needle, hay := " " + check + " ", [p] + c + " ";
    OccursOnwards(needle, hay);
    assert hay[1..] == c + " " && needle[1..] == check + " ";
    FirstThenRest(needle, hay);
    SpaceBehind(c, check);
    if c == "" {
      TooLong(needle, " ");
    } else {
      assert c + " " == [c[0]] + c[1..] + " ";
      FoundBetweenSpaces(c[0], c[1..], check);
    }
  }

  lemma FirstThenRest(a: string, b: string)
    requires a != "" && b != ""
    ensures a <= b <==> a[0] == b[0] && a[1..] <= b[1..]
  {
    assert a == [a[0]] + a[1..] && b == [b[0]] + b[1..];
  }

  lemma TooLong(needle: string, hay: string)
    requires |needle| > |hay|
    ensures !Occurs(needle, hay)
  {
  }

  lemma SpaceBehind(c: string, check: string)
    requires IsWord(check) && forall i :: 0 <= i < |c| && Blank(c[i]) ==> c[i] == ' '
    ensures check + " " <= c + " " <==> BeginsWord(c, check)
  {
    if check + " " <= c + " " {
      assert forall i :: 0 <= i < |check| ==> (c + " ")[i] == (check + " ")[i] == check[i];
      assert (c + " ")[|check|] == (check + " ")[|check|] == ' ';
      assert check <= c;
    }
    if BeginsWord(c, check) {
      assert (c + " ")[..|check| + 1] == check + " ";
    }
  }

  /** For a word `~=` finds it exactly if it is one of the words of the text. */
  lemma WordMeaning(v: string, check: string)
    requires IsWord(check)
    ensures Occurs(" " + check + " ", " " + CollapseBlanks(v) + " ") <==> HasWord(v, check)
  {
    CollapsedBlanks(v);
    hide WordIn, CollapseBlanks, HasWord, Occurs;
    FoundBetweenSpaces(' ', CollapseBlanks(v), check);
    WordInCollapsed(v, check, true);
    WordInMeaning(v, check);
  }

  // ---------------------------------------------------------------- the test

  /** The test that the code computes decides what the operator means. */
  lemma AttrMeaning(value: Option<string>, operator: AttrOperator, check: string)
    ensures AttrHolds(value, operator, check) <==> AttrMeans(value, operator, check)
  {
    hide HasWord, Occurs, CollapseBlanks;
    if value.Some? {
      var v := value.value;
      match operator
      case StartsWith => StartMeaning(v, check);
      case Includes => OccursMeaning(check, v);
      case EndsWith => EndMeaning(v, check);
      case Word =>
        OccursMeaning(" " + check + " ", " " + CollapseBlanks(v) + " ");
        if IsWord(check) { WordMeaning(v, check); }
      case Dash => StartMeaning(v, check + "-");
      case _ =>
    }
  }

  // ---------------------------------------------------------------- checks that are no words

  /** Single spaces for blanks, and no two of them together. */
  predicate Squeezed(s: string) {
    && (forall i :: 0 <= i < |s| && Blank(s[i]) ==> s[i] == ' ')
    && forall i :: 0 <= i < |s| - 1 && Blank(s[i]) ==> !Blank(s[i + 1])
  }

  lemma {:induction false} CollapsedIsSqueezed(s: string)
    ensures Squeezed(CollapseBlanks(s))
    ensures Squeezed(s) ==> CollapseBlanks(s) == s
  {
    if s != "" {
      CollapsedIsSqueezed(s[1..]);
      CollapsedStart(s[1..]);
    }
  }

  /** What is found between blanks is a part of the collapsed text. */
  lemma FoundIsSqueezed(v: string, check: string)
    requires Occurs(" " + check + " ", " " + CollapseBlanks(v) + " ")
    ensures Squeezed(check)
  {
    var c := CollapseBlanks(v);
    var hay := " " + c + " ";
    CollapsedIsSqueezed(v);
    var i :| 0 <= i <= |hay| && " " + check + " " <= hay[i..];
    forall k | 0 <= k < |check| ensures i + k < |c| && check[k] == c[i + k] {
      assert (" " + check + " ")[k + 1] == hay[i..][k + 1] == hay[i + k + 1];
      assert |" " + check + " "| <= |hay[i..]|;
    }
  }

  /** The standard: only a word can be found. */
  ghost predicate AsStandard(check: string) {
    forall v: string :: AttrHolds(Some(v), Word, check) <==> IsWord(check) && HasWord(v, check)
  }

  /** `~=` agrees with the standard for every text if and only if the check is a word or is not squeezed. */
  lemma WordIsStandardExactly(check: string)
    ensures AsStandard(check) <==> IsWord(check) || !Squeezed(check)
  {
    hide HasWord;
    if IsWord(check) {
      forall v: string ensures AttrHolds(Some(v), Word, check) <==> HasWord(v, check) { WordMeaning(v, check); }
    } else if Squeezed(check) {
      CollapsedIsSqueezed(check);
      assert (" " + check + " ")[0..] == " " + check + " ";
      assert AttrHolds(Some(check), Word, check);
    } else {
      forall v: string ensures !AttrHolds(Some(v), Word, check) {
        if AttrHolds(Some(v), Word, check) { FoundIsSqueezed(v, check); }
      }
    }
  }
}
