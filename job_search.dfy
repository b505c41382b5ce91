/** The public job list page: the search box and the two filter selects,
    the facet lists that fill the selects, and the caption shown for a job
    type. Everything here is computed from the loaded jobs and three filter
    strings, so it is modelled as functions. */
module JobSearch {
  import opened Lists
  import opened Schema

  // ---------------------------------------------------------------------
  // Case mapping and substring search

  /** `toLowerCase` on one character, for the ASCII letters. */
  function LowerChar(c: char): char
  {
    if 'A' <= c <= 'Z' then (c as int + 32) as char else c
  }

  /** `toUpperCase` on one character, for the ASCII letters. */
  function UpperChar(c: char): char
  {
    if 'a' <= c <= 'z' then (c as int - 32) as char else c
  }

  /** `toLowerCase`: the same text up to case, with no upper-case ASCII
      letter left and every other character kept. */
  function ToLower(s: string): (r: string)
    ensures |r| == |s|
    ensures forall i :: 0 <= i < |r| ==> !('A' <= r[i] <= 'Z')
    ensures forall i :: 0 <= i < |s| ==> LowerChar(r[i]) == LowerChar(s[i])
    ensures forall i :: 0 <= i < |s| && !('A' <= s[i] <= 'Z') ==> r[i] == s[i]
  {
    seq(|s|, i requires 0 <= i < |s| => LowerChar(s[i]))
  }

  /** Lower-casing twice is lower-casing once. */
  lemma ToLowerIdempotent(s: string)
    ensures ToLower(ToLower(s)) == ToLower(s)
  {
    assert forall i :: 0 <= i < |s| ==> LowerChar(LowerChar(s[i])) == LowerChar(s[i]);
  }

  /** `needle` occurs in `haystack` starting at position `i`. */
  predicate OccursAt(haystack: string, needle: string, i: int)
  {
    0 <= i <= |haystack| - |needle| && haystack[i..i + |needle|] == needle
  }

  /** `haystack.includes(needle)`: the needle occurs somewhere in the haystack. */
  function Includes(haystack: string, needle: string): (found: bool)
    ensures found <==> exists i :: OccursAt(haystack, needle, i)
    decreases |haystack|
  {
    if StartsWith(haystack, needle) then
      assert OccursAt(haystack, needle, 0);
      true
    else if haystack == [] then
      false
    else
      var tail := haystack[1..];
      var rest := Includes(tail, needle);
      assert rest ==> exists i :: OccursAt(haystack, needle, i) by {
        if rest {
          var j :| OccursAt(tail, needle, j);
          assert haystack[j + 1..j + 1 + |needle|] == tail[j..j + |needle|];
          assert OccursAt(haystack, needle, j + 1);
        }
      }
      assert (exists i :: OccursAt(haystack, needle, i)) ==> rest by {
        if exists i :: OccursAt(haystack, needle, i) {
          var i :| OccursAt(haystack, needle, i);
          assert i != 0;
          assert tail[i - 1..i - 1 + |needle|] == haystack[i..i + |needle|];
          assert OccursAt(tail, needle, i - 1);
        }
      }
      rest
  }

  /** Every string includes the empty string. */
  lemma IncludesEmpty(s: string)
    ensures Includes(s, "")
  {
    assert OccursAt(s, "", 0);
  }

  // ---------------------------------------------------------------------
  // The filtered list

  /** The three controls of the page. */
  datatype Filters = Filters(searchTerm: string, department: string, jobType: string)

  /** "Clear all filters" sets the three controls back to "". */
  const Cleared: Filters := Filters("", "", "")

  /** The search term, lower-cased, occurs in the lower-cased title,
      department or location. */
  predicate MatchesSearch(j: Job, term: string)
  {
    var t := ToLower(term);
    Includes(ToLower(j.title), t) || Includes(ToLower(j.department), t) || Includes(ToLower(j.location), t)
  }

  /** An empty selection lets everything through; a value must match exactly. */
  predicate Shown(j: Job, f: Filters)
  {
    && MatchesSearch(j, f.searchTerm)
    && (f.department == "" || j.department == f.department)
    && (f.jobType == "" || JobTypeName(j.jobType) == f.jobType)
  }

  function ShownBy(f: Filters): Job -> bool
  {
    (j: Job) => Shown(j, f)
  }

  /** `filteredJobs`: the loaded jobs the controls let through, in their order. */
  function FilteredJobs(jobs: seq<Job>, f: Filters): (r: seq<Job>)
    ensures forall j :: j in r <==>
      && j in jobs
      && (Includes(ToLower(j.title), ToLower(f.searchTerm))
          || Includes(ToLower(j.department), ToLower(f.searchTerm))
          || Includes(ToLower(j.location), ToLower(f.searchTerm)))
      && (f.department == "" || j.department == f.department)
      && (f.jobType == "" || JobTypeName(j.jobType) == f.jobType)
    ensures IsSubsequence(r, jobs)
  {
    FilterIsSubsequence(jobs, ShownBy(f));
    Filter(jobs, ShownBy(f))
  }

  /** The search does not depend on the case of the term. */
  lemma SearchIgnoresCase(jobs: seq<Job>, f: Filters, term: string)
    requires ToLower(term) == ToLower(f.searchTerm)
    ensures FilteredJobs(jobs, f.(searchTerm := term)) == FilteredJobs(jobs, f)
  {
    FilterExtensional(jobs, ShownBy(f.(searchTerm := term)), ShownBy(f));
  }

  /** After "Clear all filters" every loaded job is listed, in order. */
  lemma ClearedShowsEverything(jobs: seq<Job>)
    ensures FilteredJobs(jobs, Cleared) == jobs
  {
    forall j | j in jobs ensures Shown(j, Cleared) {
      IncludesEmpty(ToLower(j.title));
    }
    FilterAll(jobs, ShownBy(Cleared));
  }

  // ---------------------------------------------------------------------
  // Facet lists: `[...new Set(values)].sort()`

  /** The default order of `Array.prototype.sort`: strings compared code
      unit by code unit, a proper prefix first. */
  predicate Below(a: string, b: string)
  {
    if a == [] then b != []
    else b != [] && (a[0] < b[0] || (a[0] == b[0] && Below(a[1..], b[1..])))
  }

  lemma {:induction false} BelowIrreflexive(a: string)
    ensures !Below(a, a)
  {
    if a != [] {
      BelowIrreflexive(a[1..]);
    }
  }

  lemma {:induction false} BelowTransitive(a: string, b: string, c: string)
    requires Below(a, b) && Below(b, c)
    ensures Below(a, c)
  {
    if a != [] && a[0] == b[0] && b[0] == c[0] {
      BelowTransitive(a[1..], b[1..], c[1..]);
    }
  }

  lemma {:induction false} BelowTotal(a: string, b: string)
    requires a != b
    ensures Below(a, b) || Below(b, a)
  {
    if a != [] && b != [] && a[0] == b[0] {
      assert a == [a[0]] + a[1..] && b == [b[0]] + b[1..];
      BelowTotal(a[1..], b[1..]);
    }
  }

  lemma BelowAsymmetric(a: string, b: string)
    requires Below(a, b)
    ensures !Below(b, a)
  {
    if Below(b, a) {
      BelowTransitive(a, b, a);
      BelowIrreflexive(a);
    }
  }

  /** In ascending order without repeats. */
  predicate StrictlySorted(s: seq<string>)
  {
    forall i, j :: 0 <= i < j < |s| ==> Below(s[i], s[j])
  }

  /** A strictly sorted list holds each value once. */
  lemma StrictlySortedDistinct(s: seq<string>)
    requires StrictlySorted(s)
    ensures forall i, j :: 0 <= i < j < |s| ==> s[i] != s[j]
  {
    forall i, j | 0 <= i < j < |s| ensures s[i] != s[j] {
      BelowIrreflexive(s[i]);
    }
  }

  /** Puts `x` in its place in a strictly sorted list, unless it is there already. */
  function InsertDistinct(x: string, s: seq<string>): (r: seq<string>)
    requires StrictlySorted(s)
    ensures StrictlySorted(r)
    ensures forall y :: y in r <==> y == x || y in s
  {
    if s == [] then [x]
    else if x == s[0] then s
    else if Below(x, s[0]) then
      assert forall j :: 0 < j < |s| ==> Below(x, s[j]) by {
        forall j | 0 < j < |s| ensures Below(x, s[j]) {
          BelowTransitive(x, s[0], s[j]);
        }
      }
      [x] + s
    else
      BelowTotal(x, s[0]);
      assert StrictlySorted(s[1..]);
      var rest := InsertDistinct(x, s[1..]);
      assert forall y :: y in rest ==> Below(s[0], y) by {
        forall y | y in rest ensures Below(s[0], y) {
          if y != x {
            var k :| 0 <= k < |s[1..]| && s[1..][k] == y;
            assert s[k + 1] == y;
          }
        }
      }
      [s[0]] + rest
  }

  /** The distinct values of `vals` in ascending order. */
  function SortedDistinct(vals: seq<string>): (r: seq<string>)
    ensures StrictlySorted(r)
    ensures forall y :: y in r <==> y in vals
  {
    if vals == [] then []
    else InsertDistinct(vals[0], SortedDistinct(vals[1..]))
  }

  /** A strictly sorted list is determined by its elements: any other way of
      de-duplicating and sorting the same values gives the same list. */
  lemma {:induction false} StrictlySortedUnique(a: seq<string>, b: seq<string>)
    requires StrictlySorted(a) && StrictlySorted(b)
    requires forall y :: y in a <==> y in b
    ensures a == b
  {
    if a != [] && b != [] {
      if a[0] != b[0] {
        assert a[0] in a && b[0] in b;
        var i :| 0 <= i < |b| && b[i] == a[0];
        var k :| 0 <= k < |a| && a[k] == b[0];
        assert i != 0 && k != 0;
        BelowAsymmetric(b[0], a[0]);
      }
      StrictlySortedDistinct(a);
      StrictlySortedDistinct(b);
      forall y ensures y in a[1..] <==> y in b[1..] {
        if y in a[1..] {
          var k :| 0 <= k < |a[1..]| && a[1..][k] == y;
          assert a[k + 1] == y && y != a[0] && y in a;
          var m :| 0 <= m < |b| && b[m] == y;
          assert b[1..][m - 1] == y;
        }
        if y in b[1..] {
          var k :| 0 <= k < |b[1..]| && b[1..][k] == y;
          assert b[k + 1] == y && y != b[0] && y in b;
          var m :| 0 <= m < |a| && a[m] == y;
          assert a[1..][m - 1] == y;
        }
      }
      StrictlySortedUnique(a[1..], b[1..]);
      assert a == [a[0]] + a[1..] && b == [b[0]] + b[1..];
    } else {
      EmptyIffNoMember(a);
      EmptyIffNoMember(b);
    }
  }

  /** `departments`: every department of the loaded jobs, once, sorted. */
  function Departments(jobs: seq<Job>): (r: seq<string>)
    ensures StrictlySorted(r)
    ensures forall d :: d in r <==> exists j :: j in jobs && j.department == d
  {
    var vals := seq(|jobs|, i requires 0 <= i < |jobs| => jobs[i].department);
    assert forall d :: d in vals <==> exists j :: j in jobs && j.department == d by {
      forall d ensures d in vals <==> exists j :: j in jobs && j.department == d {
        if exists j :: j in jobs && j.department == d {
          var j :| j in jobs && j.department == d;
          var i :| 0 <= i < |jobs| && jobs[i] == j;
          assert vals[i] == d;
        }
      }
    }
    SortedDistinct(vals)
  }

  /** `jobTypes`: every job type literal of the loaded jobs, once, sorted. */
  function JobTypes(jobs: seq<Job>): (r: seq<string>)
    ensures StrictlySorted(r)
    ensures forall t :: t in r <==> exists j :: j in jobs && JobTypeName(j.jobType) == t
  {
    var vals := seq(|jobs|, i requires 0 <= i < |jobs| => JobTypeName(jobs[i].jobType));
    assert forall t :: t in vals <==> exists j :: j in jobs && JobTypeName(j.jobType) == t by {
      forall t ensures t in vals <==> exists j :: j in jobs && JobTypeName(j.jobType) == t {
        if exists j :: j in jobs && JobTypeName(j.jobType) == t {
          var j :| j in jobs && JobTypeName(j.jobType) == t;
          var i :| 0 <= i < |jobs| && jobs[i] == j;
          assert vals[i] == t;
        }
      }
    }
    SortedDistinct(vals)
  }

  /** Choosing any listed department never empties the list: the job that
      contributed the option is still shown. */
  lemma ListedDepartmentIsNeverEmpty(jobs: seq<Job>, d: string)
    requires d in Departments(jobs)
    ensures FilteredJobs(jobs, Filters("", d, "")) != []
  {
    var j :| j in jobs && j.department == d;
    IncludesEmpty(ToLower(j.title));
    assert j in FilteredJobs(jobs, Filters("", d, ""));
  }

  // ---------------------------------------------------------------------
  // `formatJobType`: split on '-', capitalise each word, join with ' '

  /** `s.split(sep)`: always at least one piece, none containing `sep`. */
  function Split(s: string, sep: char): (pieces: seq<string>)
    ensures |pieces| >= 1
    ensures forall k :: 0 <= k < |pieces| ==> sep !in pieces[k]
  {
    if s == [] then [""]
    else
      var rest := Split(s[1..], sep);
      if s[0] == sep then [""] + rest
      else
        assert forall k :: 1 <= k < |rest| ==> rest[1..][k - 1] == rest[k];
        [[s[0]] + rest[0]] + rest[1..]
  }

  /** Joining the pieces with `sep` gives back the string that was split. */
  lemma {:induction false} JoinSplit(s: string, sep: char)
    ensures Join(Split(s, sep), sep) == s
  {
    if s != [] {
      JoinSplit(s[1..], sep);
      var rest := Split(s[1..], sep);
      if s[0] == sep {
        assert ([""] + rest)[1..] == rest;
      } else {
        var w := [s[0]] + rest[0];
        if |rest| > 1 {
          assert ([w] + rest[1..])[1..] == rest[1..];
          assert rest == [rest[0]] + rest[1..];
        }
      }
      assert s == [s[0]] + s[1..];
    }
  }

  /** `pieces.join([sep])`. */
  function Join(pieces: seq<string>, sep: char): string
    requires |pieces| >= 1
  {
    if |pieces| == 1 then pieces[0] else pieces[0] + [sep] + Join(pieces[1..], sep)
  }

  /** `word.charAt(0).toUpperCase() + word.slice(1)`; an empty word stays empty. */
  function Capitalize(w: string): string
  {
    if w == [] then [] else [UpperChar(w[0])] + w[1..]
  }

  function CapitalizeAll(words: seq<string>): seq<string>
  {
    seq(|words|, k requires 0 <= k < |words| => Capitalize(words[k]))
  }

  /** `formatJobType`: the label has one character per character of the
      type, and every '-' has become a space. */
  function FormatJobType(t: string): (text: string)
    ensures |text| == |t|
    ensures '-' !in text
  {
    FormatIsRespell(t);
    RespellHasNoHyphen(t, true);
    Join(CapitalizeAll(Split(t, '-')), ' ')
  }

  lemma RespellHasNoHyphen(t: string, atWordStart: bool)
    ensures '-' !in Respell(t, atWordStart)
  {
    var r := Respell(t, atWordStart);
    forall i | 0 <= i < |r| ensures r[i] != '-' {
      if t[i] != '-' && 'a' <= t[i] <= 'z' {
        assert 'A' <= UpperChar(t[i]) <= 'Z';
      }
    }
  }

  /** The same rule read one character at a time: '-' becomes a space and
      a character that starts a word is upper-cased. */
  function Respell(t: string, atWordStart: bool): (r: string)
    ensures |r| == |t|
    ensures forall i :: 0 <= i < |t| ==>
      r[i] == if t[i] == '-' then ' '
              else if (if i == 0 then atWordStart else t[i - 1] == '-') then UpperChar(t[i])
              else t[i]
  {
    if t == [] then []
    else
      var rest := Respell(t[1..], t[0] == '-');
      var r := [if t[0] == '-' then ' ' else if atWordStart then UpperChar(t[0]) else t[0]] + rest;
      forall i | 0 <= i < |t|
        ensures r[i] == if t[i] == '-' then ' '
                        else if (if i == 0 then atWordStart else t[i - 1] == '-') then UpperChar(t[i])
                        else t[i]
      {
        if i > 0 {
          assert r[i] == rest[i - 1] && t[1..][i - 1] == t[i];
          if i > 1 {
            assert t[1..][i - 2] == t[i - 1];
          }
        }
      }
      r
  }

  lemma JoinExtendsHead(c: char, w: string, rest: seq<string>, sep: char)
    ensures Join([[c] + w] + rest, sep) == [c] + Join([w] + rest, sep)
  {
    if rest != [] {
      assert ([[c] + w] + rest)[1..] == rest;
      assert ([w] + rest)[1..] == rest;
    }
  }

  /** The result of capitalising every word, and of capitalising all but the first. */
  predicate AgreesWithRespell(t: string)
  {
    && Join(CapitalizeAll(Split(t, '-')), ' ') == Respell(t, true)
    && Join([Split(t, '-')[0]] + CapitalizeAll(Split(t, '-')[1..]), ' ') == Respell(t, false)
  }

  lemma HyphenStep(t: string)
    requires t != [] && t[0] == '-' && AgreesWithRespell(t[1..])
    ensures AgreesWithRespell(t)
  {
    var rest := Split(t[1..], '-');
    var caps := CapitalizeAll(rest);
    assert Split(t, '-') == [""] + rest;
    assert ([""] + rest)[1..] == rest;
    assert CapitalizeAll([""] + rest) == [""] + caps;
    assert Join([""] + caps, ' ') == [' '] + Join(caps, ' ') by {
      assert ([""] + caps)[1..] == caps;
    }
    assert Respell(t, true) == [' '] + Respell(t[1..], true);
    assert Respell(t, false) == [' '] + Respell(t[1..], true);
  }

  /** The first word of `t` starts with the letter `t[0]`: capitalising
      every word upper-cases it. */
  lemma LetterStepCapitalized(t: string)
    requires t != [] && t[0] != '-' && AgreesWithRespell(t[1..])
    ensures Join(CapitalizeAll(Split(t, '-')), ' ') == Respell(t, true)
  {
    var rest := Split(t[1..], '-');
    var w := [t[0]] + rest[0];
    var caps := CapitalizeAll(rest[1..]);
    assert Split(t, '-') == [w] + rest[1..];
    CapitalizeAllCons(w, rest[1..]);
    assert Capitalize(w) == [UpperChar(t[0])] + rest[0];
    JoinExtendsHead(UpperChar(t[0]), rest[0], caps, ' ');
    assert Respell(t, true) == [UpperChar(t[0])] + Respell(t[1..], false);
  }

  lemma CapitalizeAllCons(w: string, words: seq<string>)
    ensures CapitalizeAll([w] + words) == [Capitalize(w)] + CapitalizeAll(words)
  {
    assert forall k :: 0 < k <= |words| ==> ([w] + words)[k] == words[k - 1];
  }

  /** Leaving the first word alone keeps `t[0]` as it is. */
  lemma LetterStepPlain(t: string)
    requires t != [] && t[0] != '-' && AgreesWithRespell(t[1..])
    ensures Join([Split(t, '-')[0]] + CapitalizeAll(Split(t, '-')[1..]), ' ') == Respell(t, false)
  {
    var rest := Split(t[1..], '-');
    var w := [t[0]] + rest[0];
    var caps := CapitalizeAll(rest[1..]);
    assert Split(t, '-') == [w] + rest[1..];
    assert ([w] + rest[1..])[1..] == rest[1..];
    JoinExtendsHead(t[0], rest[0], caps, ' ');
  }

  /** Split, capitalise and join agree with `Respell`. */
  lemma {:induction false} FormatIsRespell(t: string)
    ensures AgreesWithRespell(t)
  {
    if t != [] {
      FormatIsRespell(t[1..]);
      if t[0] == '-' {
        HyphenStep(t);
      } else {
        LetterStepCapitalized(t);
        LetterStepPlain(t);
      }
    }
  }

  /** `formatJobType` keeps the length, turns each '-' into a space and
      upper-cases the first character and each character after a '-'. */
  lemma FormatJobTypeCharwise(t: string)
    ensures |FormatJobType(t)| == |t|
    ensures forall i :: 0 <= i < |t| ==>
      FormatJobType(t)[i] == if t[i] == '-' then ' '
                             else if i == 0 || t[i - 1] == '-' then UpperChar(t[i])
                             else t[i]
  {
    FormatIsRespell(t);
    assert FormatJobType(t) == Respell(t, true);
  }

  /** A type with no '-' is one word: only its first character changes. */
  lemma OneWordLabel(t: string, caption: string)
    requires t != [] && '-' !in t
    requires |caption| == |t| && caption[0] == UpperChar(t[0]) && caption[1..] == t[1..]
    ensures FormatJobType(t) == caption
  {
    FormatJobTypeCharwise(t);
    forall i | 0 < i < |t| ensures FormatJobType(t)[i] == caption[i] {
      assert t[i - 1] in t && t[i] in t;
      assert caption[1..][i - 1] == t[1..][i - 1];
    }
  }

  /** A type with one '-' is two words: the first character and the one
      after the '-' change, and the '-' becomes a space. */
  lemma TwoWordLabel(t: string, caption: string, k: nat)
    requires 0 < k < |t| - 1 && t[k] == '-' && '-' !in t[..k] && '-' !in t[k + 1..]
    requires |caption| == |t| && caption[k] == ' '
    requires caption[0] == UpperChar(t[0]) && caption[k + 1] == UpperChar(t[k + 1])
    requires caption[1..k] == t[1..k] && caption[k + 2..] == t[k + 2..]
    ensures FormatJobType(t) == caption
  {
    FormatJobTypeCharwise(t);
    forall i | 0 <= i < |t| ensures FormatJobType(t)[i] == caption[i] {
      if 0 < i < k {
        assert t[..k][i - 1] in t[..k] && t[..k][i] in t[..k];
        assert caption[1..k][i - 1] == t[1..k][i - 1];
      } else if i > k + 1 {
        assert t[k + 1..][i - k - 2] in t[k + 1..] && t[k + 1..][i - k - 1] in t[k + 1..];
        assert caption[k + 2..][i - k - 2] == t[k + 2..][i - k - 2];
      } else if i == k + 1 {
        assert t[k + 1..][0] in t[k + 1..];
      }
    }
  }

  /** The labels of the five job types, as the job form's type select spells them. */
  lemma LabelFullTime()
    ensures FormatJobType("full-time") == "Full Time"
  {
    TwoWordLabel("full-time", "Full Time", 4);
  }

  lemma LabelPartTime()
    ensures FormatJobType("part-time") == "Part Time"
  {
    TwoWordLabel("part-time", "Part Time", 4);
  }

  lemma LabelContract()
    ensures FormatJobType("contract") == "Contract"
  {
    OneWordLabel("contract", "Contract");
  }

  lemma LabelInternship()
    ensures FormatJobType("internship") == "Internship"
  {
    OneWordLabel("internship", "Internship");
  }

  lemma LabelRemote()
    ensures FormatJobType("remote") == "Remote"
  {
    OneWordLabel("remote", "Remote");
  }
}
