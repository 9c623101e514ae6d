/**
 * How the dashboard labels a delivery's status: the Parcel API's numeric
 * codes 0 to 8 map to fixed labels and style classes; anything else is
 * shown as tidied free text.
 */
module Status {
  import opened Wrappers
  import opened Text
  import opened Parcel
  import opened Seqs

  predicate IsDash(c: char) {
    c == '_' || c == '-'
  }

  /** Every character satisfying `p` is a single space with no other such
      character right after it. */
  ghost predicate Squashed(s: string, p: char -> bool) {
    && (forall i :: 0 <= i < |s| && p(s[i]) ==> s[i] == ' ')
    && (forall i, j :: 0 <= i < j < |s| && j == i + 1 ==> !(p(s[i]) && p(s[j])))
  }

  /** The characters `p` does not match. */
  function Outside(p: char -> bool): char -> bool {
    c => !p(c)
  }

  /** The characters `p` does not match, other than a space. */
  function Kept(p: char -> bool): char -> bool {
    c => !p(c) && c != ' '
  }

  /** The number of maximal runs of characters satisfying `p`. */
  function Runs(s: string, p: char -> bool): nat {
    if s == [] then 0
    else
      var n := |s| - 1;
      Runs(s[..n], p) + (if p(s[n]) && (n == 0 || !p(s[n - 1])) then 1 else 0)
  }

  /** `replace(/[…]+/g, ' ')`: each maximal run of characters satisfying
      `p` becomes one space. */
  function Squash(s: string, p: char -> bool): (r: string)
    ensures Squashed(r, p)
    ensures s == [] <==> r == []
    ensures s != [] && !p(s[|s| - 1]) ==> r[|r| - 1] == s[|s| - 1]
    ensures s != [] && p(s[|s| - 1]) ==> r[|r| - 1] == ' '
  {
    if s == [] then []
    else
      var n := |s| - 1;
      if !p(s[n]) then Squash(s[..n], p) + [s[n]]
      else if n > 0 && p(s[n - 1]) then Squash(s[..n], p)
      else Squash(s[..n], p) + [' ']
  }

  /** What squashing keeps: the characters outside `p`, other than spaces,
      survive in order, and the result has one character per character
      outside `p` plus one space per maximal run. */
  lemma SquashSurvivors(s: string, p: char -> bool)
    ensures Filter(Squash(s, p), Kept(p)) == Filter(s, Kept(p))
    ensures |Squash(s, p)| == |Filter(s, Outside(p))| + Runs(s, p)
  {
    SquashKeepsText(s, p, Kept(p));
    SquashLength(s, p);
  }

  lemma {:induction false} SquashLength(s: string, p: char -> bool)
    ensures |Squash(s, p)| == |Filter(s, Outside(p))| + Runs(s, p)
  {
    if s != [] {
      var n := |s| - 1;
      var front := s[..n];
      SquashLength(front, p);
      assert s == front + [s[n]];
      FilterAppend(front, s[n], Outside(p));
    }
  }

  /** Squashing text that is already squashed changes nothing. */
  lemma {:induction false} SquashFixed(s: string, p: char -> bool)
    requires Squashed(s, p)
    ensures Squash(s, p) == s
  {
    if s != [] {
      var n := |s| - 1;
      var front := s[..n];
      SquashedFront(s, p);
      SquashFixed(front, p);
      assert s == front + [s[n]];
      if p(s[n]) {
        assert s[n] == ' ';
        if n > 0 {
          assert !p(front[n - 1]);
        }
      }
    }
  }

  lemma SquashedFront(s: string, p: char -> bool)
    requires Squashed(s, p) && s != []
    ensures Squashed(s[..|s| - 1], p)
  {
    var front := s[..|s| - 1];
    forall i | 0 <= i < |front| && p(front[i])
      ensures front[i] == ' ' && (i + 1 < |front| ==> !p(front[i + 1]))
    {
      assert front[i] == s[i];
      if i + 1 < |front| {
        assert front[i + 1] == s[i + 1];
      }
    }
  }

  /** Squashing introduces no character other than a space. */
  lemma {:induction false} SquashKeepsOut(s: string, p: char -> bool, q: char -> bool)
    requires !q(' ') && forall i :: 0 <= i < |s| ==> !q(s[i])
    ensures forall i :: 0 <= i < |Squash(s, p)| ==> !q(Squash(s, p)[i])
  {
    if s != [] {
      SquashKeepsOut(s[..|s| - 1], p, q);
    }
  }

  /** A slice of squashed text is squashed; trimmed text is such a slice. */
  lemma TrimKeepsSquashed(s: string, p: char -> bool)
    requires Squashed(s, p)
    ensures Squashed(Trim(s), p)
  {
    var i, j := TrimSlice(s);
    assert forall k :: 0 <= k < j - i ==> Trim(s)[k] == s[i + k];
  }

  /** Trimming keeps out what the text did not have. */
  lemma TrimKeepsOut(s: string, q: char -> bool)
    requires forall i :: 0 <= i < |s| ==> !q(s[i])
    ensures forall i :: 0 <= i < |Trim(s)| ==> !q(Trim(s)[i])
  {
    var i, j := TrimSlice(s);
    assert forall k :: 0 <= k < j - i ==> Trim(s)[k] == s[i + k];
  }

  /** Squashing keeps, in order, every character of a class that holds
      neither a space nor a character of `p`. */
  lemma {:induction false} SquashKeepsText(s: string, p: char -> bool, q: char -> bool)
    requires !q(' ') && forall c :: q(c) ==> !p(c)
    ensures Filter(Squash(s, p), q) == Filter(s, q)
  {
    if s != [] {
      var n := |s| - 1;
      var front := s[..n];
      var rest := Squash(front, p);
      SquashKeepsText(front, p, q);
      assert s == front + [s[n]];
      FilterAppend(front, s[n], q);
      if !p(s[n]) {
        FilterAppend(rest, s[n], q);
      } else if !(n > 0 && p(s[n - 1])) {
        FilterAppend(rest, ' ', q);
      }
    }
  }

  /** Trimming keeps every character of a class that holds no white space. */
  lemma TrimKeepsText(s: string, q: char -> bool)
    requires forall c :: q(c) ==> !IsSpace(c)
    ensures Filter(Trim(s), q) == Filter(s, q)
  {
    var i, j := TrimSlice(s);
    assert s == s[..i] + s[i..j] + s[j..];
    FilterNone(s[..i], q);
    FilterNone(s[j..], q);
    FilterConcat(s[..i] + s[i..j], s[j..], q);
    FilterConcat(s[..i], s[i..j], q);
  }

  /** The characters a status label is made of: neither a dash nor white space. */
  predicate IsWordChar(c: char) {
    !IsDash(c) && !IsSpace(c)
  }

  /** What separates the words of a status: a dash or white space. */
  predicate IsSep(c: char) {
    IsDash(c) || IsSpace(c)
  }

  /** One more character: kept when unmatched, dropped inside a run, and
      a space when it opens a run. */
  lemma SquashSnoc(s: string, x: char, p: char -> bool)
    ensures Squash(s + [x], p) ==
              if !p(x) then Squash(s, p) + [x]
              else if s != [] && p(s[|s| - 1]) then Squash(s, p)
              else Squash(s, p) + [' ']
  {
    assert (s + [x])[..|s|] == s;
    if s != [] {
      assert (s + [x])[|s| - 1] == s[|s| - 1];
    }
  }

  /** A non-empty run of matched characters squashes to one space. */
  lemma {:induction false} SquashRun(s: string, p: char -> bool)
    requires s != [] && forall i :: 0 <= i < |s| ==> p(s[i])
    ensures Squash(s, p) == " "
  {
    if |s| > 1 {
      SquashRun(s[..|s| - 1], p);
    }
  }

  /** Squashing distributes over a concatenation that does not split a
      run: the runs of each side are replaced in place. */
  lemma {:induction false} SquashConcat(a: string, b: string, p: char -> bool)
    requires a == [] || b == [] || !p(a[|a| - 1]) || !p(b[0])
    ensures Squash(a + b, p) == Squash(a, p) + Squash(b, p)
  {
    if b == [] {
      assert a + b == a;
    } else {
      var n := |b| - 1;
      var front := b[..n];
      var y := b[n];
      assert b == front + [y];
      assert a + b == (a + front) + [y];
      if front != [] {
        assert front[0] == b[0];
        assert (a + front)[|a + front| - 1] == front[n - 1];
      } else {
        assert a + front == a;
      }
      SquashConcat(a, front, p);
      SquashSnoc(a + front, y, p);
      SquashSnoc(front, y, p);
      var sa, sf, saf := Squash(a, p), Squash(front, p), Squash(a + front, p);
      if !p(y) {
        AppendBoth(sa, sf, saf, y);
      } else if front != [] && p(front[n - 1]) {
        assert Squash(a + b, p) == saf && Squash(b, p) == sf;
      } else {
        AppendBoth(sa, sf, saf, ' ');
      }
    }
  }

  /** A run between two unmatched characters becomes exactly one space,
      and the text on either side squashes on its own. */
  lemma SquashRunBetween(u: string, run: string, v: string, p: char -> bool)
    requires run != [] && forall i :: 0 <= i < |run| ==> p(run[i])
    requires u == [] || !p(u[|u| - 1])
    requires v == [] || !p(v[0])
    ensures Squash(u + run + v, p) == Squash(u, p) + " " + Squash(v, p)
  {
    assert (u + run)[|u + run| - 1] == run[|run| - 1];
    SquashConcat(u, run, p);
    SquashConcat(u + run, v, p);
    SquashRun(run, p);
  }

  /** Appending the same character to both sides of `l == u + v`. */
  lemma AppendBoth(u: string, v: string, l: string, c: char)
    requires l == u + v
    ensures l + [c] == u + (v + [c])
  {
  }

  /** Replacing dash runs and then white-space runs replaces the runs of
      separators at once. */
  lemma {:induction false} SquashSeparators(s: string)
    ensures Squash(Squash(s, IsDash), IsSpace) == Squash(s, IsSep)
  {
    if s != [] {
      var n := |s| - 1;
      var front := s[..n];
      var d := Squash(front, IsDash);
      SquashSeparators(front);
      var d' := Squash(s, IsDash);
      if d' != d {
        var x := d'[|d'| - 1];
        assert d' == d + [x];
        assert (d + [x])[..|d|] == d;
        if d != [] {
          assert (d + [x])[|d| - 1] == d[|d| - 1];
        }
      }
    }
  }

  /** The words of a status text, its maximal runs of word characters in
      order, read left to right: a word character continues the current
      word when it follows one, and starts a new word otherwise. */
  function Words(s: string): (r: seq<string>)
    ensures s != [] && IsWordChar(s[|s| - 1]) ==> r != []
  {
    if s == [] then []
    else
      var n := |s| - 1;
      var ws := Words(s[..n]);
      if !IsWordChar(s[n]) then ws
      else if n > 0 && IsWordChar(s[n - 1]) then ws[..|ws| - 1] + [ws[|ws| - 1] + [s[n]]]
      else ws + [[s[n]]]
  }

  /** A text has no words exactly when it is all separators. */
  lemma {:induction false} WordsNone(s: string)
    ensures Words(s) == [] <==> forall i :: 0 <= i < |s| ==> IsSep(s[i])
  {
    if s != [] {
      var n := |s| - 1;
      WordsNone(s[..n]);
      assert forall i :: 0 <= i < n ==> s[..n][i] == s[i];
    }
  }

  /** The words of `s` joined by single spaces. */
  function Joined(s: string): string {
    JoinWith(Words(s), " ")
  }

  function Pad(b: bool): string {
    if b then " " else ""
  }

  /** Joining after the last word gets one more character. */
  lemma JoinExtendLast(init: seq<string>, last: string, x: char)
    ensures JoinWith(init + [last + [x]], " ") == JoinWith(init + [last], " ") + [x]
  {
    if init == [] {
      assert init + [last + [x]] == [last + [x]];
      assert init + [last] == [last];
    } else {
      JoinSnoc(init, last, " ");
      JoinSnoc(init, last + [x], " ");
      assert JoinWith(init, " ") + " " + (last + [x]) == (JoinWith(init, " ") + " " + last) + [x];
    }
  }

  /** One more character and the words: a separator adds none, a word
      character continues the last word when it follows one and otherwise
      starts a new word. */
  lemma WordsSnoc(front: string, x: char)
    ensures Words(front + [x]) ==
              if !IsWordChar(x) then Words(front)
              else if front != [] && IsWordChar(front[|front| - 1]) then
                Words(front)[..|Words(front)| - 1] + [Words(front)[|Words(front)| - 1] + [x]]
              else Words(front) + [[x]]
  {
    var s := front + [x];
    assert s[..|front|] == front && s[|front|] == x;
    if front != [] {
      assert s[|front| - 1] == front[|front| - 1];
    }
  }

  /** One more character and the joined words: a separator adds nothing, a
      word character continues the last word when it follows one, and
      otherwise starts a new word, after a space when there is a word
      before it. */
  lemma JoinedSnoc(front: string, x: char)
    ensures Words(front + [x]) == [] <==> Words(front) == [] && !IsWordChar(x)
    ensures Joined(front + [x]) ==
              if !IsWordChar(x) then Joined(front)
              else if front != [] && IsWordChar(front[|front| - 1]) then Joined(front) + [x]
              else if Words(front) == [] then [x]
              else Joined(front) + " " + [x]
  {
    var ws := Words(front);
    WordsSnoc(front, x);
    if IsWordChar(x) {
      if front != [] && IsWordChar(front[|front| - 1]) {
        var m := |ws| - 1;
        assert ws == ws[..m] + [ws[m]];
        JoinExtendLast(ws[..m], ws[m], x);
      } else if ws != [] {
        JoinSnoc(ws, [x], " ");
      } else {
        assert ws + [[x]] == [[x]];
      }
    }
  }

  /** The joined words are empty exactly when there is no word, and
      otherwise start and end with a word character. */
  lemma {:induction false} JoinedEnds(s: string)
    ensures Joined(s) == [] <==> Words(s) == []
    ensures Joined(s) != [] ==> IsWordChar(Joined(s)[0]) && IsWordChar(Joined(s)[|Joined(s)| - 1])
  {
    if s != [] {
      var n := |s| - 1;
      var front := s[..n];
      var x := s[n];
      assert s == front + [x];
      JoinedEnds(front);
      JoinedSnoc(front, x);
      var j := Joined(front);
      if IsWordChar(x) && j != [] {
        assert Joined(s)[0] == j[0];
      }
    }
  }

  /** Squashing the runs of separators of `s` gives its words joined by
      single spaces, with one more space in front when `s` starts with a
      separator and one more at the end when a separator follows the last
      word. */
  lemma {:induction false} SquashedWords(s: string)
    ensures Squash(s, IsSep) ==
              Pad(s != [] && IsSep(s[0])) + Joined(s) + Pad(s != [] && IsSep(s[|s| - 1]) && Words(s) != [])
  {
    if s != [] {
      var n := |s| - 1;
      var front := s[..n];
      var x := s[n];
      assert s == front + [x];
      SquashedWords(front);
      JoinedSnoc(front, x);
      if front == [] {
        SquashSnoc(front, x, IsSep);
      } else {
        assert s[0] == front[0] && s[n - 1] == front[n - 1];
        if IsWordChar(x) {
          SquashedWordsWord(front, x);
        } else {
          SquashedWordsSep(front, x);
        }
      }
    }
  }

  /** The step of SquashedWords for one more word character. */
  lemma SquashedWordsWord(front: string, x: char)
    requires front != [] && IsWordChar(x)
    requires Squash(front, IsSep) ==
               Pad(IsSep(front[0])) + Joined(front) + Pad(IsSep(front[|front| - 1]) && Words(front) != [])
    ensures Squash(front + [x], IsSep) == Pad(IsSep(front[0])) + Joined(front + [x])
  {
    SquashSnoc(front, x, IsSep);
    assert !IsSep(x);
    JoinedWord(front, x, Pad(IsSep(front[0])), Squash(front, IsSep));
  }

  /** A word character after text laid out as `pre`, the joined words and
      a trailing space when a separator follows the last word, lays out the
      words of the longer text. */
  lemma JoinedWord(front: string, x: char, pre: string, t: string)
    requires front != [] && IsWordChar(x)
    requires t == pre + Joined(front) + Pad(IsSep(front[|front| - 1]) && Words(front) != [])
    ensures t + [x] == pre + Joined(front + [x])
  {
    var j := Joined(front);
    var last := Pad(IsSep(front[|front| - 1]) && Words(front) != []);
    var jx := Joined(front + [x]);
    JoinedSnoc(front, x);
    JoinedEnds(front);
    assert (last == [] && jx == j + [x]) || (last == [' '] && jx == j + [' '] + [x]) || (last == [] && jx == [x] && j == []);
    AppendLaidOut(pre, j, last, jx, x);
  }

  /** Appending a character to `pre + j + last` where the longer join is `j`
      followed by `last` and the character. */
  lemma AppendLaidOut(pre: string, j: string, last: string, jx: string, x: char)
    requires (last == [] && jx == j + [x]) || (last == [' '] && jx == j + [' '] + [x]) || (last == [] && jx == [x] && j == [])
    ensures pre + j + last + [x] == pre + jx
  {
    if last == [] {
      assert pre + j + last == pre + j;
    }
  }

  /** The step of SquashedWords for one more separator. */
  lemma SquashedWordsSep(front: string, x: char)
    requires front != [] && !IsWordChar(x)
    requires Squash(front, IsSep) ==
               Pad(IsSep(front[0])) + Joined(front) + Pad(IsSep(front[|front| - 1]) && Words(front) != [])
    ensures Squash(front + [x], IsSep) == Pad(IsSep(front[0])) + Joined(front) + Pad(Words(front) != [])
  {
    var n := |front|;
    var pre := Pad(IsSep(front[0]));
    var j := Joined(front);
    SquashSnoc(front, x, IsSep);
    assert IsSep(x);
    if IsSep(front[n - 1]) {
      assert Squash(front + [x], IsSep) == Squash(front, IsSep);
    } else {
      assert Words(front) != [];
      assert Pad(false) == [] && Pad(true) == [' '];
      assert Squash(front, IsSep) == pre + j;
      assert Squash(front + [x], IsSep) == pre + j + [' '];
    }
  }

  /** Tidying a status text joins its words with single spaces. */
  lemma NormalizedWords(s: string)
    ensures Trim(Squash(Squash(s, IsDash), IsSpace)) == Joined(s)
  {
    var front := Pad(s != [] && IsSep(s[0]));
    var back := Pad(s != [] && IsSep(s[|s| - 1]) && Words(s) != []);
    SquashSeparators(s);
    SquashedWords(s);
    JoinedEnds(s);
    TrimPadded(front, Joined(s), back);
  }

  /** `normalizeStatusText`: runs of `_` and `-` become a space, runs of
      white space become one space, and the ends are trimmed. The words
      survive: the characters that are neither dashes nor white space are
      those of the input, in order, and the label is empty exactly when the
      input has none. */
  function NormalizeStatusText(s: string): (r: string)
    ensures IsTrimmed(r)
    ensures forall i :: 0 <= i < |r| ==> !IsDash(r[i])
    ensures Squashed(r, IsSpace)
    ensures Filter(r, IsWordChar) == Filter(s, IsWordChar)
    ensures r == "" <==> Filter(s, IsWordChar) == []
    ensures r == Joined(s)
  {
    var t := Squash(Squash(s, IsDash), IsSpace);
    SquashKeepsOut(Squash(s, IsDash), IsSpace, IsDash);
    TrimKeepsSquashed(t, IsSpace);
    TrimKeepsOut(t, IsDash);
    SquashKeepsText(s, IsDash, IsWordChar);
    SquashKeepsText(Squash(s, IsDash), IsSpace, IsWordChar);
    TrimKeepsText(t, IsWordChar);
    WordlessIsEmpty(Trim(t));
    NormalizedWords(s);
    Trim(t)
  }

  /** Trimmed text without dashes is empty exactly when it has no word character. */
  lemma WordlessIsEmpty(r: string)
    requires IsTrimmed(r) && forall i :: 0 <= i < |r| ==> !IsDash(r[i])
    ensures r == "" <==> Filter(r, IsWordChar) == []
  {
    if r != "" {
      FilterKeeps(r, IsWordChar, r[0]);
    }
  }

  /** Normalising twice is normalising once. */
  lemma NormalizeIdempotent(s: string)
    ensures NormalizeStatusText(NormalizeStatusText(s)) == NormalizeStatusText(s)
  {
    var r := NormalizeStatusText(s);
    assert Squashed(r, IsDash);
    SquashFixed(r, IsDash);
    SquashFixed(r, IsSpace);
    TrimOfTrimmed(r);
  }

  /** The labels of the Parcel API's status codes 0 to 8. */
  const Labels: seq<string> := ["Completed", "Frozen", "In transit", "Ready for pickup", "Out for delivery",
                                "Not found", "Delivery attempt failed", "Exception", "Info received"]

  /** The style class of each status code. */
  const Classes: seq<string> := ["status-completed", "status-frozen", "status-in-transit", "status-pickup",
                                 "status-out-for-delivery", "status-not-found", "status-failed-attempt",
                                 "status-exception", "status-info-received"]

  datatype StatusMeta = StatusMeta(labelText: string, className: string, value: string)

  /** The numeric reading of `status_code`: a number as is, a string when it
      is all ASCII digits once trimmed. */
  function NumericCode(code: StatusCode): (r: Option<int>)
    ensures r.Some? && code.SStr? ==> AllDigits(Trim(code.s)) && Trim(code.s) != "" && r.value >= 0
  {
    match code
    case SNum(n) => Some(n)
    case SStr(s) => if Trim(s) != "" && AllDigits(Trim(s)) then Some(DigitsValue(Trim(s))) else None
    case SNone => None
  }

  /** `String(status_code)` when the code is present. */
  function CodeText(code: StatusCode): Option<string> {
    match code
    case SNum(n) => Some(IntToString(n))
    case SStr(s) => Some(s)
    case SNone => None
  }

  predicate Known(code: StatusCode) {
    NumericCode(code).Some? && 0 <= NumericCode(code).value < |Labels|
  }

  /** Free text shown as a status: tidied, with a lower-case value. */
  function TextMeta(text: string): (r: StatusMeta)
    ensures r.className == "status-unknown" && IsLower(r.value)
  {
    var caption := NormalizeStatusText(text);
    LowerIsLower(caption);
    StatusMeta(caption, "status-unknown", Lower(caption))
  }

  /** `statusMeta`: a known numeric code wins; then non-blank status text;
      then the code's own text; then `Unknown`. */
  function StatusMetaOf(status: Option<string>, code: StatusCode): (r: StatusMeta)
    ensures Known(code) ==>
              var n := NumericCode(code).value;
              r == StatusMeta(Labels[n], Classes[n], IntToString(n))
    ensures !Known(code) && status.Some? && !IsBlank(status.value) ==> r == TextMeta(status.value)
    ensures !Known(code) && (status.None? || IsBlank(status.value)) ==>
              if CodeText(code).Some? && !IsBlank(CodeText(code).value) then r == TextMeta(CodeText(code).value)
              else r == StatusMeta("Unknown", "status-unknown", "unknown")
  {
    if Known(code) then
      var n := NumericCode(code).value;
      StatusMeta(Labels[n], Classes[n], IntToString(n))
    else if status.Some? && Trim(status.value) != "" then
      TrimEmptyIffBlank(status.value);
      TextMeta(status.value)
    else
      TrimEmptyIffBlank(if status.Some? then status.value else "");
      var text := CodeText(code);
      if text.Some? && Trim(text.value) != "" then
        TrimEmptyIffBlank(text.value);
        TextMeta(text.value)
      else
        TrimEmptyIffBlank(if text.Some? then text.value else "");
        StatusMeta("Unknown", "status-unknown", "unknown")
  }

  /** The style class is a fixed one exactly for the codes 0 to 8, and the
      value, which the status filter compares, is always lower-case. */
  lemma StatusMetaClasses(status: Option<string>, code: StatusCode)
    ensures StatusMetaOf(status, code).className != "status-unknown" <==> Known(code)
    ensures IsLower(StatusMetaOf(status, code).value)
  {
    if Known(code) {
      var n := NumericCode(code).value;
      DigitsOfNat(n);
    }
  }

  /** A digit string and the number it spells get the same status, whatever
      the free text says: `"07"` and `7` both read `Exception`, value `7`. */
  lemma DigitStringsAgree(s: string, status: Option<string>, other: Option<string>)
    requires Trim(s) != "" && AllDigits(Trim(s)) && DigitsValue(Trim(s)) < |Labels|
    ensures StatusMetaOf(status, SStr(s)) == StatusMetaOf(other, SNum(DigitsValue(Trim(s))))
  {
  }

  lemma SevenExample()
    ensures StatusMetaOf(Some("in_transit"), SStr(" 07")) == StatusMetaOf(None, SNum(7))
    ensures StatusMetaOf(None, SNum(7)) == StatusMeta("Exception", "status-exception", "7")
  {
    SevenDigits();
    DigitStringsAgree(" 07", Some("in_transit"), None);
    assert NatToString(7) == "7";
  }

  lemma SevenDigits()
    ensures Trim(" 07") == "07" && AllDigits("07") && DigitsValue("07") == 7
  {
    TrimAfterBlank("07");
    assert "07"[..1] == "0";
  }
}
