/** File names for cached GPX tracks: `slugify` and `gpx_filename`
    (strava_to_sqlite/cli.py). Characters are treated as ASCII: only `A`-`Z`
    change case, and whitespace is the ASCII part of Python's `\s`. */
module Slug {
  import opened Base
  import opened Records
  import opened Decimal

  predicate IsUpper(c: char) {
    'A' <= c <= 'Z'
  }

  /** `str.lower()` on one character. */
  function LowerChar(c: char): (d: char)
    ensures !IsUpper(d)
    ensures !IsUpper(c) ==> d == c
    ensures IsUpper(c) ==> d as int == c as int + 32
  {
    if IsUpper(c) then (c as int - 'A' as int + 'a' as int) as char else c
  }

  function Lower(s: string): (r: string)
    ensures |r| == |s|
    ensures forall i :: 0 <= i < |s| ==> r[i] == LowerChar(s[i])
  {
    seq(|s|, i requires 0 <= i < |s| => LowerChar(s[i]))
  }

  /** The character class `[#'",\-]` that slugify deletes. */
  predicate IsRemoved(c: char) {
    c == '#' || c == '\'' || c == '"' || c == ',' || c == '-'
  }

  /** Python's `\s` on ASCII: tab, line feed, vertical tab, form feed,
      carriage return, the four information separators and space. */
  predicate IsSpace(c: char) {
    9 <= c as int <= 13 || 28 <= c as int <= 32
  }

  /** The character classes the file-name code deletes. */
  datatype CharClass = Punctuation | Dash | Whitespace | Exactly(d: char)

  predicate In(c: char, k: CharClass) {
    match k
    case Punctuation => IsRemoved(c)
    case Dash => c == '-'
    case Whitespace => IsSpace(c)
    case Exactly(d) => c == d
  }

  /** `s` without the characters of class `chars`; the others keep their order. */
  function DeleteAll(s: string, chars: CharClass): (r: string)
    ensures |r| <= |s|
  {
    if s == [] then []
    else if In(s[0], chars) then DeleteAll(s[1..], chars)
    else [s[0]] + DeleteAll(s[1..], chars)
  }

  /** No character of the class survives. */
  lemma {:induction false} DeleteAllRemoves(s: string, chars: CharClass)
    ensures forall i :: 0 <= i < |DeleteAll(s, chars)| ==> !In(DeleteAll(s, chars)[i], chars)
    decreases |s|
  {
    if s != [] {
      DeleteAllRemoves(s[1..], chars);
    }
  }

  /** What `DeleteAll` keeps comes from `s`, and it keeps every character
      of `s` outside `chars`. */
  lemma {:induction false} DeleteAllMembers(s: string, chars: CharClass)
    ensures forall c :: c in DeleteAll(s, chars) ==> c in s
    ensures forall i :: 0 <= i < |s| && !In(s[i], chars) ==> s[i] in DeleteAll(s, chars)
    decreases |s|
  {
    if s != [] {
      DeleteAllMembers(s[1..], chars);
    }
  }

  lemma {:induction false} DeleteAllAppend(a: string, b: string, chars: CharClass)
    ensures DeleteAll(a + b, chars) == DeleteAll(a, chars) + DeleteAll(b, chars)
    decreases |a|
  {
    if a == [] {
      assert a + b == b;
    } else {
      assert (a + b)[0] == a[0] && (a + b)[1..] == a[1..] + b;
      DeleteAllAppend(a[1..], b, chars);
    }
  }

  lemma {:induction false} DeleteAllNone(s: string, chars: CharClass)
    requires forall i :: 0 <= i < |s| ==> !In(s[i], chars)
    ensures DeleteAll(s, chars) == s
    decreases |s|
  {
    if s != [] {
      DeleteAllNone(s[1..], chars);
    }
  }

  /** `re.sub(r"[#'\",\-]", "", s)`: none of `# ' " , -` is left. */
  function Strip(s: string): (r: string)
    ensures |r| <= |s|
    ensures forall i :: 0 <= i < |r| ==> !IsRemoved(r[i])
  {
    DeleteAllRemoves(s, Punctuation);
    DeleteAll(s, Punctuation)
  }

  /** The string with its leading whitespace removed. */
  function DropSpaces(s: string): (r: string)
    ensures |r| <= |s|
    ensures r == [] || !IsSpace(r[0])
  {
    if s != [] && IsSpace(s[0]) then DropSpaces(s[1..]) else s
  }

  lemma {:induction false} DropSpacesIsSuffix(s: string)
    ensures DropSpaces(s) == s[|s| - |DropSpaces(s)|..]
    decreases |s|
  {
    if s != [] && IsSpace(s[0]) {
      DropSpacesIsSuffix(s[1..]);
    }
  }

  /** What `DropSpaces` removes is whitespace only. */
  lemma {:induction false} DropSpacesRemovesSpaces(s: string)
    ensures forall i :: 0 <= i < |s| - |DropSpaces(s)| ==> IsSpace(s[i])
    decreases |s|
  {
    if s != [] && IsSpace(s[0]) {
      DropSpacesRemovesSpaces(s[1..]);
    }
  }

  /** `re.sub(r"\s+", sep, s)`: every maximal run of whitespace becomes one
      `sep`, so every character of the result is a character of `sep` or a
      non-whitespace character of `s`. */
  function Collapse(s: string, sep: string): (r: string)
    ensures forall i :: 0 <= i < |r| ==> r[i] in sep || (r[i] in s && !IsSpace(r[i]))
    decreases |s|
  {
    if s == [] then []
    else if IsSpace(s[0]) then
      var rest := DropSpaces(s[1..]);
      DropSpacesIsSuffix(s[1..]);
      assert forall c :: c in rest ==> c in s;
      sep + Collapse(rest, sep)
    else [s[0]] + Collapse(s[1..], sep)
  }

  /** `slugify(val, sep)`: lower-case, delete `# ' " , -`, collapse
      whitespace. The slug holds no upper-case letter, none of `# ' " , -`
      and no whitespace, except for what `sep` itself brings in. */
  function Slugify(val: string, sep: string): (r: string)
    ensures forall i :: 0 <= i < |r| ==>
      r[i] in sep || (!IsUpper(r[i]) && !IsRemoved(r[i]) && !IsSpace(r[i]))
  {
    var lowered := Lower(val);
    var stripped := Strip(lowered);
    DeleteAllMembers(lowered, Punctuation);
    assert forall c :: c in stripped ==> !IsUpper(c) && !IsRemoved(c) by {
      forall c | c in stripped
        ensures !IsUpper(c) && !IsRemoved(c)
      {
        var i :| 0 <= i < |stripped| && stripped[i] == c;
      }
    }
    Collapse(stripped, sep)
  }

  /** With the default separator `_` the slug is lower-case and free of
      whitespace and of the deleted punctuation. */
  lemma DefaultSlugIsClean(val: string)
    ensures forall i :: 0 <= i < |Slugify(val, "_")| ==>
      var c := Slugify(val, "_")[i];
      !IsUpper(c) && !IsRemoved(c) && !IsSpace(c)
  {
  }

  /** A string without whitespace is left as it is. */
  lemma {:induction false} CollapseNoSpace(s: string, sep: string)
    requires forall i :: 0 <= i < |s| ==> !IsSpace(s[i])
    ensures Collapse(s, sep) == s
    decreases |s|
  {
    if s != [] {
      CollapseNoSpace(s[1..], sep);
    }
  }

  /** A non-empty run of whitespace becomes exactly one separator. */
  lemma CollapseRun(w: string, sep: string)
    requires w != []
    requires forall i :: 0 <= i < |w| ==> IsSpace(w[i])
    ensures Collapse(w, sep) == sep
  {
    DropSpacesOfRun(w[1..]);
  }

  lemma {:induction false} DropSpacesOfRun(w: string)
    requires forall i :: 0 <= i < |w| ==> IsSpace(w[i])
    ensures DropSpaces(w) == []
    decreases |w|
  {
    if w != [] {
      DropSpacesOfRun(w[1..]);
    }
  }

  /** Dropping leading whitespace from a string that goes on after its
      whitespace keeps everything after that point. */
  lemma {:induction false} DropSpacesAppend(x: string, b: string)
    requires b == [] || !IsSpace(b[0]) || DropSpaces(x) != []
    ensures DropSpaces(x + b) == DropSpaces(x) + b
    decreases |x|
  {
    if x == [] {
      assert x + b == b;
    } else {
      assert (x + b)[0] == x[0] && (x + b)[1..] == x[1..] + b;
      if IsSpace(x[0]) {
        DropSpacesAppend(x[1..], b);
      }
    }
  }

  /** Collapsing distributes over a concatenation that does not glue two
      whitespace runs together. */
  lemma {:induction false} CollapseAppend(a: string, b: string, sep: string)
    requires a == [] || b == [] || !IsSpace(a[|a| - 1]) || !IsSpace(b[0])
    ensures Collapse(a + b, sep) == Collapse(a, sep) + Collapse(b, sep)
    decreases |a|, 1
  {
    if a == [] {
      assert a + b == b;
    } else if !IsSpace(a[0]) {
      assert (a + b)[0] == a[0] && (a + b)[1..] == a[1..] + b;
      CollapseAppend(a[1..], b, sep);
    } else {
      CollapseAppendRun(a, b, sep);
    }
  }

  /** The case of `CollapseAppend` where `a` opens with whitespace. */
  lemma {:induction false} CollapseAppendRun(a: string, b: string, sep: string)
    requires a != [] && IsSpace(a[0])
    requires b == [] || !IsSpace(a[|a| - 1]) || !IsSpace(b[0])
    ensures Collapse(a + b, sep) == Collapse(a, sep) + Collapse(b, sep)
    decreases |a|, 0
  {
    var tail := a[1..];
    var rest := DropSpaces(tail);
    if rest == [] {
      CollapseAppendWholeRun(a, b, sep);
    } else {
      assert Collapse(rest + b, sep) == Collapse(rest, sep) + Collapse(b, sep) by {
        DropSpacesKeepsLast(tail);
        assert tail[|tail| - 1] == a[|a| - 1];
        CollapseAppend(rest, b, sep);
      }
      CollapseJoinHead(a, b, sep);
    }
  }

  /** Collapsing distributes over `a + b` when `a` opens with a whitespace
      run that something else ends, given that it distributes over what
      follows that run. */
  lemma CollapseJoinHead(a: string, b: string, sep: string)
    requires a != [] && IsSpace(a[0]) && DropSpaces(a[1..]) != []
    requires Collapse(DropSpaces(a[1..]) + b, sep) == Collapse(DropSpaces(a[1..]), sep) + Collapse(b, sep)
    ensures Collapse(a + b, sep) == Collapse(a, sep) + Collapse(b, sep)
  {
    var x, y := Collapse(DropSpaces(a[1..]), sep), Collapse(b, sep);
    CollapseHeadRun(a, b, sep);
    CollapseAtSpace(a, sep);
    assert sep + (x + y) == (sep + x) + y;
  }

  /** A leading whitespace run that something other than whitespace ends
      becomes `sep`, whatever follows. */
  lemma CollapseHeadRun(a: string, b: string, sep: string)
    requires a != [] && IsSpace(a[0]) && DropSpaces(a[1..]) != []
    ensures Collapse(a + b, sep) == sep + Collapse(DropSpaces(a[1..]) + b, sep)
  {
    var ab, tail := a + b, a[1..];
    assert ab[0] == a[0] && ab[1..] == tail + b;
    CollapseAtSpace(ab, sep);
    DropSpacesAppend(tail, b);
  }

  /** What is left after dropping leading whitespace ends where the string ends. */
  lemma DropSpacesKeepsLast(s: string)
    requires DropSpaces(s) != []
    ensures DropSpaces(s)[|DropSpaces(s)| - 1] == s[|s| - 1]
  {
    DropSpacesIsSuffix(s);
  }

  /** The case of `CollapseAppend` where `a` is whitespace only. */
  lemma CollapseAppendWholeRun(a: string, b: string, sep: string)
    requires a != [] && IsSpace(a[0]) && DropSpaces(a[1..]) == []
    requires b == [] || !IsSpace(a[|a| - 1]) || !IsSpace(b[0])
    ensures Collapse(a + b, sep) == Collapse(a, sep) + Collapse(b, sep)
  {
    var tail := a[1..];
    assert Collapse(a, sep) == sep by {
      CollapseAtSpace(a, sep);
    }
    assert DropSpaces(tail + b) == b by {
      LastOfRun(a);
      DropSpacesAppend(tail, b);
      assert [] + b == b;
    }
    assert Collapse(a + b, sep) == sep + Collapse(DropSpaces(tail + b), sep) by {
      assert (a + b)[0] == a[0] && (a + b)[1..] == tail + b;
      CollapseAtSpace(a + b, sep);
    }
  }

  lemma CollapseAtSpace(s: string, sep: string)
    requires s != [] && IsSpace(s[0])
    ensures Collapse(s, sep) == sep + Collapse(DropSpaces(s[1..]), sep)
  {
  }

  /** A string that is all whitespace after its first character ends in whitespace. */
  lemma LastOfRun(a: string)
    requires a != [] && IsSpace(a[0]) && DropSpaces(a[1..]) == []
    ensures IsSpace(a[|a| - 1])
  {
    var tail := a[1..];
    DropSpacesRemovesSpaces(tail);
    if tail != [] {
      assert a[|a| - 1] == tail[|tail| - 1];
    }
  }

  /** Whitespace is deleted, and every other character keeps its order,
      when the separator is empty. */
  lemma {:induction false} CollapseKeepsOrder(s: string)
    ensures Collapse(s, []) == DeleteAll(s, Whitespace)
    decreases |s|
  {
    if s != [] {
      if IsSpace(s[0]) {
        var rest := DropSpaces(s[1..]);
        DeleteAllSkipsRun(s[1..]);
        CollapseKeepsOrder(rest);
      } else {
        CollapseKeepsOrder(s[1..]);
      }
    }
  }

  /** With a one-character separator `c` that is not whitespace and does not
      occur in `s` (the program's `_` after `Strip` of a name without `_`),
      deleting the separators from the result gives back the non-whitespace
      characters of `s` in their order. */
  lemma {:induction false} CollapseKeepsOrderSep(s: string, c: char)
    requires !IsSpace(c) && c !in s
    ensures DeleteAll(Collapse(s, [c]), Exactly(c)) == DeleteAll(s, Whitespace)
    decreases |s|
  {
    if s != [] {
      if IsSpace(s[0]) {
        var rest := DropSpaces(s[1..]);
        DropSpacesIsSuffix(s[1..]);
        assert c !in rest;
        DeleteAllSkipsRun(s[1..]);
        CollapseKeepsOrderSep(rest, c);
        DeleteAllAppend([c], Collapse(rest, [c]), Exactly(c));
      } else {
        assert c !in s[1..];
        CollapseKeepsOrderSep(s[1..], c);
        DeleteAllAppend([s[0]], Collapse(s[1..], [c]), Exactly(c));
      }
    }
  }

  /** Deleting whitespace gets past a leading run of it. */
  lemma DeleteAllSkipsRun(s: string)
    ensures DeleteAll(s, Whitespace) == DeleteAll(DropSpaces(s), Whitespace)
  {
    var rest := DropSpaces(s);
    var dropped := s[..|s| - |rest|];
    DropSpacesIsSuffix(s);
    assert s == dropped + rest;
    DropSpacesRemovesSpaces(s);
    DeleteAllAppend(dropped, rest, Whitespace);
    DeleteAllOfRun(dropped);
  }

  lemma {:induction false} DeleteAllOfRun(w: string)
    requires forall i :: 0 <= i < |w| ==> IsSpace(w[i])
    ensures DeleteAll(w, Whitespace) == []
    decreases |w|
  {
    if w != [] {
      DeleteAllOfRun(w[1..]);
    }
  }

  /** `slugify("Morning Run #1")` is `morning_run_1`. */
  lemma SlugifyExample(val: string)
    requires val == "Morning Run #1"
    ensures Slugify(val, "_") == "morning_run_1"
  {
    LowerExample();
    StripExample("morning run #1");
    CollapseExample("morning run 1");
  }

  lemma LowerExample()
    ensures Lower("Morning Run #1") == "morning run #1"
  {
  }

  lemma StripExample(s: string)
    requires s == "morning run #1"
    ensures Strip(s) == "morning run 1"
  {
    var head, tail := "morning run ", "#1";
    assert s == head + tail;
    DeleteAllAppend(head, tail, Punctuation);
    NoPunctuationIn(head);
    DeleteAllNone(head, Punctuation);
    StripTail(tail);
    assert head + "1" == "morning run 1";
  }

  lemma NoPunctuationIn(head: string)
    requires head == "morning run "
    ensures forall i :: 0 <= i < |head| ==> !In(head[i], Punctuation)
  {
  }

  lemma StripTail(tail: string)
    requires tail == "#1"
    ensures DeleteAll(tail, Punctuation) == "1"
  {
    assert tail[1..] == "1";
  }

  lemma CollapseExample(s: string)
    requires s == "morning run 1"
    ensures Collapse(s, "_") == "morning_run_1"
  {
    var w1, w2, w3 := "morning", " run", " 1";
    ExampleWords(s, w1, w2, w3);
    CollapseThreeWords(w1, w2, w3, "_");
    ExampleJoin(w1, w2, w3);
  }

  lemma ExampleWords(s: string, w1: string, w2: string, w3: string)
    requires s == "morning run 1" && w1 == "morning" && w2 == " run" && w3 == " 1"
    ensures s == w1 + w2 + w3
    ensures w1 != [] && forall i :: 0 <= i < |w1| ==> !IsSpace(w1[i])
    ensures |w2| >= 2 && w2[0] == ' ' && forall i :: 1 <= i < |w2| ==> !IsSpace(w2[i])
    ensures |w3| >= 2 && w3[0] == ' ' && forall i :: 1 <= i < |w3| ==> !IsSpace(w3[i])
  {
  }

  lemma ExampleJoin(w1: string, w2: string, w3: string)
    requires w1 == "morning" && w2 == " run" && w3 == " 1"
    ensures w1 + ("_" + w2[1..]) + ("_" + w3[1..]) == "morning_run_1"
  {
  }

  /** A word, then two words each after one space: each space becomes `sep`. */
  lemma CollapseThreeWords(w1: string, w2: string, w3: string, sep: string)
    requires w1 != [] && forall i :: 0 <= i < |w1| ==> !IsSpace(w1[i])
    requires |w2| >= 2 && w2[0] == ' ' && forall i :: 1 <= i < |w2| ==> !IsSpace(w2[i])
    requires |w3| >= 2 && w3[0] == ' ' && forall i :: 1 <= i < |w3| ==> !IsSpace(w3[i])
    ensures Collapse(w1 + w2 + w3, sep) == w1 + (sep + w2[1..]) + (sep + w3[1..])
  {
    CollapseNoSpace(w1, sep);
    CollapseSpaceWord(w2, sep);
    CollapseSpaceWord(w3, sep);
    CollapseAppend(w1, w2, sep);
    assert (w1 + w2)[|w1 + w2| - 1] == w2[|w2| - 1];
    CollapseAppend(w1 + w2, w3, sep);
  }

  /** A space followed by a word collapses to the separator and the word. */
  lemma CollapseSpaceWord(s: string, sep: string)
    requires |s| >= 2 && s[0] == ' '
    requires forall i :: 1 <= i < |s| ==> !IsSpace(s[i])
    ensures Collapse(s, sep) == sep + s[1..]
  {
    CollapseNoSpace(s[1..], sep);
  }

  /** Python's `s[:n]`, the slice `s[0:n]`: the whole string when it is
      shorter than `n`. */
  function Prefix(s: string, n: nat): (r: string)
    ensures |r| == if |s| <= n then |s| else n
    ensures r == s[..|r|]
  {
    Slice(s, 0, n)
  }

  /** `start_date_local[:10].replace("-", "")`: at most ten characters, none a dash. */
  function DateSlug(startDateLocal: string): (r: string)
    ensures |r| <= 10
    ensures forall i :: 0 <= i < |r| ==> r[i] != '-'
  {
    DeleteAllRemoves(Prefix(startDateLocal, 10), Dash);
    DeleteAll(Prefix(startDateLocal, 10), Dash)
  }

  /** A local timestamp that begins `YYYY-MM-DD`. */
  predicate IsIsoDate(d: string) {
    |d| >= 10 && d[4] == '-' && d[7] == '-' &&
    AllDigits(d[..4]) && AllDigits(d[5..7]) && AllDigits(d[8..10])
  }

  /** For an ISO date the date slug is the eight digits `YYYYMMDD`. */
  lemma DateSlugOfIsoDate(d: string)
    requires IsIsoDate(d)
    ensures DateSlug(d) == d[..4] + d[5..7] + d[8..10]
    ensures |DateSlug(d)| == 8 && AllDigits(DateSlug(d))
  {
    var year, month, day := d[..4], d[5..7], d[8..10];
    assert Prefix(d, 10) == year + ("-" + (month + ("-" + day)));
    DashJoin(month, day);
    DashJoin(year, month + ("-" + day));
    DeleteAllNone(day, Dash);
  }

  /** Deleting dashes from `x + "-" + y` where `x` is all digits. */
  lemma DashJoin(x: string, y: string)
    requires AllDigits(x)
    ensures DeleteAll(x + ("-" + y), Dash) == x + DeleteAll(y, Dash)
  {
    DeleteAllAppend(x, "-" + y, Dash);
    DeleteAllNone(x, Dash);
    assert ("-" + y)[0] == '-' && ("-" + y)[1..] == y;
  }

  /** `gpx_filename(activity)`: `<date slug>_<id>_<slug of name>.gpx`, a
      `.gpx` name that begins with the date slug and an underscore. */
  function GpxFilename(a: Summary): (r: string)
    ensures |r| > 4 && r[|r| - 4..] == ".gpx"
    ensures var date := DateSlug(a.startDateLocal);
      |date| < |r| && r[..|date| + 1] == date + "_"
  {
    DateSlug(a.startDateLocal) + "_" + IntToString(a.id) + "_" + Slugify(a.name, "_") + ".gpx"
  }

  /** The file name of activity 123, "Morning Run #1", started locally on
      2021-05-02 at 07:00, is `20210502_123_morning_run_1.gpx`. */
  lemma GpxFilenameExample(a: Summary)
    requires a == Summary(123, "Morning Run #1", "2021-05-02T07:00:00")
    ensures GpxFilename(a) == "20210502_123_morning_run_1.gpx"
  {
    DateSlugExample(a.startDateLocal);
    IdExample();
    SlugifyExample(a.name);
    FilenameOfParts(DateSlug(a.startDateLocal), IntToString(a.id), Slugify(a.name, "_"));
  }

  lemma FilenameOfParts(date: string, id: string, slug: string)
    requires date == "20210502" && id == "123" && slug == "morning_run_1"
    ensures date + "_" + id + "_" + slug + ".gpx" == "20210502_123_morning_run_1.gpx"
  {
  }

  lemma IdExample()
    ensures IntToString(123) == "123"
  {
  }

  lemma DateSlugExample(d: string)
    requires d == "2021-05-02T07:00:00"
    ensures DateSlug(d) == "20210502"
  {
    assert d[..4] == "2021" && d[5..7] == "05" && d[8..10] == "02";
    assert IsIsoDate(d);
    DateSlugOfIsoDate(d);
  }

  /** In `x + [c] + y` with no `c` in `x`, the first `c` is at index `|x|`. */
  lemma FirstOccurrence(x: string, c: char, y: string)
    requires c !in x
    ensures (x + [c] + y)[|x|] == c
    ensures forall i :: 0 <= i < |x| ==> (x + [c] + y)[i] != c
  {
  }

  /** `x + [c] + y` splits at its first `c` when `x` holds no `c`. */
  lemma SplitAtFirst(x1: string, y1: string, x2: string, y2: string, c: char)
    requires c !in x1 && c !in x2
    requires x1 + [c] + y1 == x2 + [c] + y2
    ensures x1 == x2 && y1 == y2
  {
    var s := x1 + [c] + y1;
    FirstOccurrence(x1, c, y1);
    FirstOccurrence(x2, c, y2);
    assert |x1| == |x2|;
    assert x1 == s[..|x1|];
    assert x2 == s[..|x2|];
    assert y1 == s[|x1| + 1..];
    assert y2 == s[|x2| + 1..];
  }

  /** Two activities with ISO local dates share a cache file name only when
      they share an id: the cache cannot hand one activity's track to another. */
  lemma GpxFilenameDeterminesId(a: Summary, b: Summary)
    requires IsIsoDate(a.startDateLocal) && IsIsoDate(b.startDateLocal)
    requires GpxFilename(a) == GpxFilename(b)
    ensures a.id == b.id
  {
    var ra := FilenameAfterDate(a);
    var rb := FilenameAfterDate(b);
    SplitAtFirst(DateSlug(a.startDateLocal), ra, DateSlug(b.startDateLocal), rb, '_');
    var ia, ib := IntToString(a.id), IntToString(b.id);
    assert '_' !in ia && '_' !in ib;
    SplitAtFirst(ia, Slugify(a.name, "_") + ".gpx", ib, Slugify(b.name, "_") + ".gpx", '_');
    IntToStringInjective(a.id, b.id);
  }

  /** The file name of an activity with an ISO date, cut after the date slug. */
  lemma FilenameAfterDate(a: Summary) returns (rest: string)
    requires IsIsoDate(a.startDateLocal)
    ensures '_' !in DateSlug(a.startDateLocal)
    ensures rest == IntToString(a.id) + ['_'] + (Slugify(a.name, "_") + ".gpx")
    ensures GpxFilename(a) == DateSlug(a.startDateLocal) + ['_'] + rest
  {
    var date, id, slug := DateSlug(a.startDateLocal), IntToString(a.id), Slugify(a.name, "_");
    assert '_' !in date by {
      DateSlugOfIsoDate(a.startDateLocal);
    }
    rest := id + ['_'] + (slug + ".gpx");
    Regroup(date, id, slug);
  }

  lemma Regroup(date: string, id: string, slug: string)
    ensures date + "_" + id + "_" + slug + ".gpx" == date + ['_'] + (id + ['_'] + (slug + ".gpx"))
  {
  }
}
