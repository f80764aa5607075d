/** The string transforms that turn a page file's path, relative to the pages
    directory, into a canonical route path, and the scan that extracts the
    dynamic parameter names from that path. Each transform in
    `resolve-routes.ts` is one regular expression replacement or match, or,
    for `addLeadingSlash`, one `startsWith` test; here each is a total
    function on strings. `NormalizeSeparators` stands for `normalizeSeparators`
    from `common/utils.js`, whose behaviour is assumed. The contracts of the trimming and slash
    helpers determine their results; `GetRouteParams` is given by its
    definition, and `NoParamsIffNoGroup`, `GetRouteParamsAtGroup` and
    `GetRouteParamsOfRender` state what it finds. */
module PathTransforms {
  import opened RouteTypes

  // ---------------------------------------------------------------------
  // Searching
  // ---------------------------------------------------------------------

  /** The first position of `c` in `s`. */
  function IndexOf(s: string, c: char): (r: Option<nat>)
    ensures r.Some? ==> r.value < |s| && s[r.value] == c && c !in s[..r.value]
    ensures r.None? <==> c !in s
  {
    if |s| == 0 then None
    else if s[0] == c then Some(0)
    else match IndexOf(s[1..], c)
      case Some(i) => Some(i + 1)
      case None => None
  }

  /** The last position of `c` in `s`. */
  function LastIndexOf(s: string, c: char): (r: Option<nat>)
    ensures r.Some? ==> r.value < |s| && s[r.value] == c && c !in s[r.value + 1..]
    ensures r.None? <==> c !in s
    decreases |s|
  {
    if |s| == 0 then None
    else if s[|s| - 1] == c then Some(|s| - 1)
    else
      var r := LastIndexOf(s[..|s| - 1], c);
      if r.Some? then
        assert s[r.value + 1..] == s[..|s| - 1][r.value + 1..] + [s[|s| - 1]];
        r
      else
        assert s == s[..|s| - 1] + [s[|s| - 1]];
        r
  }

  predicate EndsWith(s: string, suffix: string) {
    |suffix| <= |s| && s[|s| - |suffix|..] == suffix
  }

  predicate StartsWith(s: string, prefix: string) {
    |prefix| <= |s| && s[..|prefix|] == prefix
  }

  // ---------------------------------------------------------------------
  // Separator normalisation (`normalizeSeparators` from common/utils.js)
  // ---------------------------------------------------------------------

  /** Assumed behaviour of `normalizeSeparators`, whose definition is not part
      of this model: every backslash becomes a forward slash and nothing else
      changes. */
  function NormalizeSeparators(s: string): (r: string)
    ensures |r| == |s| && '\\' !in r
    ensures forall i :: 0 <= i < |s| && s[i] != '\\' ==> r[i] == s[i]
    ensures forall i :: 0 <= i < |s| && s[i] == '\\' ==> r[i] == '/'
    ensures '\\' !in s ==> r == s
  {
    seq(|s|, i requires 0 <= i < |s| => if s[i] == '\\' then '/' else s[i])
  }

  /** A second pass changes nothing. */
  lemma NormalizeSeparatorsIdempotent(s: string)
    ensures NormalizeSeparators(NormalizeSeparators(s)) == NormalizeSeparators(s)
  {
  }

  lemma NormalizeSeparatorsAppend(a: string, b: string)
    ensures NormalizeSeparators(a + b) == NormalizeSeparators(a) + NormalizeSeparators(b)
  {
    var l, r := NormalizeSeparators(a + b), NormalizeSeparators(a) + NormalizeSeparators(b);
    assert forall i :: 0 <= i < |a + b| ==> l[i] == r[i] by {
      forall i | 0 <= i < |a + b| ensures l[i] == r[i] {
        if i < |a| {
          assert (a + b)[i] == a[i];
        } else {
          assert (a + b)[i] == b[i - |a|];
        }
      }
    }
  }

  // ---------------------------------------------------------------------
  // `trimFileExtensions`
  // ---------------------------------------------------------------------

  /** True when `s` ends in a `.ext` that the regular expression removes: a
      last dot followed by at least one character. */
  predicate HasExtension(s: string) {
    '.' in s && s[|s| - 1] != '.'
  }

  /** Removes the final `.ext`: everything from the last dot on, provided at
      least one character follows that dot. Otherwise `s` is unchanged. */
  function TrimFileExtensions(s: string): (r: string)
    ensures StartsWith(s, r)
    ensures r == s <==> !HasExtension(s)
    ensures r != s ==> |r| + 1 < |s| && s[|r|] == '.' && '.' !in s[|r| + 1..]
  {
    match LastIndexOf(s, '.')
    case Some(i) => if i < |s| - 1 then s[..i] else s
    case None => s
  }

  /** Stripping a dot-free, non-empty extension from `stem + "." + ext` gives
      back the stem, whatever dots the stem holds. */
  lemma TrimFileExtensionsOfStem(stem: string, ext: string)
    requires |ext| > 0 && '.' !in ext
    ensures TrimFileExtensions(stem + "." + ext) == stem
  {
    var s := stem + "." + ext;
    assert s[|stem|] == '.';
    var r := TrimFileExtensions(s);
    assert s[|stem| + 1..] == ext;
    assert s[..|stem|] == stem;
  }

  /** Only the last extension goes; a trailing dot is not an extension. */
  lemma TrimFileExtensionsExamples()
    ensures TrimFileExtensions("a.b.astro") == "a.b"
    ensures TrimFileExtensions("blog/index.md") == "blog/index"
    ensures TrimFileExtensions("notes.") == "notes."
  {
    assert "a.b" + "." + "astro" == "a.b.astro";
    TrimFileExtensionsOfStem("a.b", "astro");
    assert "blog/index" + "." + "md" == "blog/index.md";
    TrimFileExtensionsOfStem("blog/index", "md");
    assert !HasExtension("notes.");
  }

  // ---------------------------------------------------------------------
  // `trimIndex`
  // ---------------------------------------------------------------------

  /** Removes a trailing `index` by plain suffix match, with no check that a
      separator precedes it. */
  function TrimIndex(s: string): (r: string)
    ensures StartsWith(s, r)
    ensures EndsWith(s, "index") ==> r + "index" == s
    ensures !EndsWith(s, "index") ==> r == s
  {
    if EndsWith(s, "index") then s[..|s| - 5] else s
  }

  /** `TrimIndex` undoes appending `index`. */
  lemma TrimIndexOfAppended(stem: string)
    ensures TrimIndex(stem + "index") == stem
  {
    var s := stem + "index";
    assert s[|s| - 5..] == "index";
    assert s[..|s| - 5] == stem;
  }

  /** A nested index keeps its separator; the root index becomes empty. */
  lemma TrimIndexExamples()
    ensures TrimIndex("blog/index") == "blog/"
    ensures TrimIndex("index") == ""
  {
    TrimIndexOfAppended("blog/");
    TrimIndexOfAppended("");
  }

  /** The suffix match has no segment boundary: a name that merely ends in
      `index` loses those letters. */
  lemma TrimIndexReindex()
    ensures TrimIndex("reindex") == "re"
  {
    TrimIndexOfAppended("re");
  }

  // ---------------------------------------------------------------------
  // `trimTrailingSlash`
  // ---------------------------------------------------------------------

  /** Removes one trailing `/`, if there is one. */
  function TrimTrailingSlash(s: string): (r: string)
    ensures StartsWith(s, r)
    ensures r != s <==> EndsWith(s, "/")
    ensures |s| - |r| <= 1
  {
    if EndsWith(s, "/") then s[..|s| - 1] else s
  }

  /** Only one slash goes: a doubled trailing slash leaves one behind. */
  lemma TrimTrailingSlashRemovesAtMostOne(stem: string)
    ensures TrimTrailingSlash(stem + "//") == stem + "/"
  {
    var s := stem + "//";
    assert s[|s| - 1..] == "/";
    assert s[..|s| - 1] == stem + "/";
  }

  // ---------------------------------------------------------------------
  // `addLeadingSlash`
  // ---------------------------------------------------------------------

  /** Prefixes `/` unless the string already starts with one. */
  function AddLeadingSlash(s: string): (r: string)
    ensures StartsWith(r, "/")
    ensures StartsWith(s, "/") ==> r == s
    ensures !StartsWith(s, "/") ==> r == "/" + s
  {
    if StartsWith(s, "/") then s else "/" + s
  }

  /** Adding the leading slash twice is the same as adding it once. */
  lemma AddLeadingSlashIdempotent(s: string)
    ensures AddLeadingSlash(AddLeadingSlash(s)) == AddLeadingSlash(s)
  {
  }

  // ---------------------------------------------------------------------
  // `getRouteParams`
  // ---------------------------------------------------------------------

  predicate BracketFree(s: string) {
    '[' !in s && ']' !in s
  }

  /** Drops every `[` and `]`, keeping the other characters in order. */
  function StripBrackets(s: string): (r: string)
    ensures BracketFree(r)
    ensures |r| == |s| - multiset(s)['['] - multiset(s)[']']
    ensures BracketFree(s) ==> r == s
  {
    if |s| == 0 then []
    else
      assert s == [s[0]] + s[1..];
      (if s[0] == '[' || s[0] == ']' then [] else [s[0]]) + StripBrackets(s[1..])
  }

  /** Every character other than a bracket survives as often as it occurs. */
  lemma {:induction false} StripBracketsKeepsOthers(s: string, c: char)
    requires c != '[' && c != ']'
    ensures multiset(StripBrackets(s))[c] == multiset(s)[c]
    decreases |s|
  {
    if |s| > 0 {
      assert s == [s[0]] + s[1..];
      StripBracketsKeepsOthers(s[1..], c);
    }
  }

  lemma {:induction false} StripBracketsAppend(a: string, b: string)
    ensures StripBrackets(a + b) == StripBrackets(a) + StripBrackets(b)
    decreases |a|
  {
    if |a| > 0 {
      var head := if a[0] == '[' || a[0] == ']' then [] else [a[0]];
      assert (a + b)[0] == a[0] && (a + b)[1..] == a[1..] + b;
      assert StripBrackets(a + b) == head + StripBrackets(a[1..] + b);
      StripBracketsAppend(a[1..], b);
    } else {
      assert a + b == b;
    }
  }

  /** The bracket pattern matches at position `p` of `s`: a `[`, at least
      one character other than `]`, then a `]`. Because the middle characters
      exclude `]`, the match can only end at the first `]` after `p`. */
  predicate GroupAt(s: string, p: nat) {
    p + 1 < |s| && s[p] == '[' && s[p + 1] != ']' && ']' in s[p + 2..]
  }

  /** The global match of the bracket pattern, scanned from the left: at a
      match, emit it with its brackets removed and resume after its `]`;
      otherwise move on by one character. */
  function GetRouteParams(s: string): (r: seq<string>)
    ensures forall k :: 0 <= k < |r| ==> BracketFree(r[k])
    decreases |s|
  {
    if |s| == 0 then []
    else if 1 < |s| && s[0] == '[' && s[1] != ']' then
      match IndexOf(s[2..], ']')
      case Some(k) => [StripBrackets(s[..k + 3])] + GetRouteParams(s[k + 3..])
      case None => GetRouteParams(s[1..])
    else GetRouteParams(s[1..])
  }

  lemma GroupAtShift(s: string, p: nat)
    requires |s| > 0
    ensures GroupAt(s[1..], p) <==> GroupAt(s, p + 1)
  {
    if p + 2 < |s| {
      assert s[1..][p + 2..] == s[p + 3..];
    }
  }

  /** The scan finds nothing exactly when the pattern matches at no position. */
  lemma {:induction false} NoParamsIffNoGroup(s: string)
    ensures GetRouteParams(s) == [] <==> forall p :: 0 <= p < |s| ==> !GroupAt(s, p)
    decreases |s|
  {
    if |s| == 0 {
    } else if GroupAt(s, 0) {
      assert ']' in s[2..];
    } else {
      NoParamsIffNoGroup(s[1..]);
      forall p | 0 <= p < |s| - 1
        ensures GroupAt(s[1..], p) <==> GroupAt(s, p + 1)
      {
        GroupAtShift(s, p);
      }
      if forall p :: 0 <= p < |s| - 1 ==> !GroupAt(s[1..], p) {
        forall p | 0 <= p < |s| ensures !GroupAt(s, p) {
          if p > 0 {
            assert !GroupAt(s[1..], p - 1);
          }
        }
      } else {
        var p :| 0 <= p < |s| - 1 && GroupAt(s[1..], p);
        assert GroupAt(s, p + 1);
      }
    }
  }

  /** Text with no `[` is passed over by the scan, even if it holds a `]`. */
  lemma {:induction false} GetRouteParamsSkipsLiteral(text: string, rest: string)
    requires '[' !in text
    ensures GetRouteParams(text + rest) == GetRouteParams(rest)
    decreases |text|
  {
    if |text| == 0 {
      assert text + rest == rest;
    } else {
      assert (text + rest)[0] == text[0];
      assert (text + rest)[1..] == text[1..] + rest;
      GetRouteParamsSkipsLiteral(text[1..], rest);
    }
  }

  /** At a match, the scan emits the text up to the first `]` after the
      opening `[` and resumes after that `]`. */
  lemma GetRouteParamsAtGroup(s: string, k: nat)
    requires 1 < |s| && s[0] == '[' && s[1] != ']'
    requires k + 2 < |s| && s[k + 2] == ']' && ']' !in s[2..k + 2]
    ensures GetRouteParams(s) == [StripBrackets(s[..k + 3])] + GetRouteParams(s[k + 3..])
  {
    var t := s[2..];
    assert t[k] == ']';
    assert t[..k] == s[2..k + 2];
    var j := IndexOf(t, ']');
    assert j.Some?;
    assert j.value == k;
  }

  /** Removing the brackets of a group `[name]` leaves `name`. */
  lemma StripBracketsOfGroup(name: string)
    requires BracketFree(name)
    ensures StripBrackets("[" + name + "]") == name
  {
    StripBracketsAppend("[" + name, "]");
    StripBracketsAppend("[", name);
  }

  /** A bracket group `[name]` yields `name` and the scan resumes after it. */
  lemma GetRouteParamsTakesGroup(name: string, rest: string)
    requires |name| > 0 && BracketFree(name)
    ensures GetRouteParams("[" + name + "]" + rest) == [name] + GetRouteParams(rest)
  {
    var open := "[" + name;
    var group := open + "]";
    var s := group + rest;
    var n := |name|;
    assert s[..n + 2] == group;
    assert s[n + 2..] == rest;
    assert s[2..n + 1] == name[1..];
    assert s[0] == '[' && s[1] == name[0] && s[n + 1] == ']';
    StripBracketsOfGroup(name);
    GetRouteParamsAtGroup(s, n - 1);
  }

  /** A path that ends in its only bracket group yields exactly that group's name. */
  lemma GetRouteParamsOfTrailingGroup(prefix: string, name: string)
    requires BracketFree(prefix) && |name| > 0 && BracketFree(name)
    ensures GetRouteParams(prefix + "[" + name + "]") == [name]
  {
    var group := "[" + name + "]";
    assert prefix + "[" + name + "]" == prefix + group;
    GetRouteParamsSkipsLiteral(prefix, group);
    assert group + "" == group;
    GetRouteParamsTakesGroup(name, "");
  }

  /** Text with no `]` holds no group, so the scan finds nothing in it. */
  lemma GetRouteParamsWithoutClose(t: string)
    requires ']' !in t
    ensures GetRouteParams(t) == []
  {
    assert forall p :: 0 <= p < |t| ==> !GroupAt(t, p);
    NoParamsIffNoGroup(t);
  }

  /** A `[` that is never closed is not a group, so after bracket-free text
      it yields nothing. */
  lemma GetRouteParamsUnclosed(prefix: string, rest: string)
    requires BracketFree(prefix) && ']' !in rest
    ensures GetRouteParams(prefix + "[" + rest) == []
  {
    assert prefix + "[" + rest == prefix + ("[" + rest);
    GetRouteParamsSkipsLiteral(prefix, "[" + rest);
    GetRouteParamsWithoutClose("[" + rest);
  }

  /** `[[]` is a group whose name, once both brackets go, is empty; the scan
      then resumes after its `]`. */
  lemma GetRouteParamsNestedOpen(rest: string)
    ensures GetRouteParams("[[]" + rest) == [""] + GetRouteParams(rest)
  {
    var group := "[[]";
    var s := group + rest;
    assert s[..3] == group && s[3..] == rest;
    assert s[0] == '[' && s[1] == '[' && s[2] == ']' && s[2..2] == [];
    assert StripBrackets(group) == "" by {
      StripBracketsOfGroup("");
      assert "[" + "" + "]" == "[]" && "[" + "[]" == group;
      StripBracketsAppend("[", "[]");
    }
    GetRouteParamsAtGroup(s, 0);
  }

  /** A route path written as a sequence of pieces: literal text, or a
      dynamic segment `[name]`. */
  datatype Piece = Literal(text: string) | Param(name: string)

  predicate WellFormedPiece(piece: Piece) {
    match piece
    case Literal(text) => BracketFree(text)
    case Param(name) => |name| > 0 && BracketFree(name)
  }

  function Render(pieces: seq<Piece>): string {
    if |pieces| == 0 then ""
    else
      (match pieces[0]
       case Literal(text) => text
       case Param(name) => "[" + name + "]")
      + Render(pieces[1..])
  }

  function ParamNames(pieces: seq<Piece>): seq<string> {
    if |pieces| == 0 then []
    else (if pieces[0].Param? then [pieces[0].name] else []) + ParamNames(pieces[1..])
  }

  /** The scan recovers exactly the dynamic segment names, left to right, from
      any path built of bracket-free text and non-empty `[name]` segments. */
  lemma {:induction false} GetRouteParamsOfRender(pieces: seq<Piece>)
    requires forall i :: 0 <= i < |pieces| ==> WellFormedPiece(pieces[i])
    ensures GetRouteParams(Render(pieces)) == ParamNames(pieces)
    decreases |pieces|
  {
    if |pieces| > 0 {
      GetRouteParamsOfRender(pieces[1..]);
      match pieces[0]
      case Literal(text) =>
        GetRouteParamsSkipsLiteral(text, Render(pieces[1..]));
      case Param(name) =>
        assert "[" + name + "]" + Render(pieces[1..]) == Render(pieces);
        GetRouteParamsTakesGroup(name, Render(pieces[1..]));
    }
  }

  /** An empty pair of brackets is not a group. */
  lemma GetRouteParamsEmptyBrackets()
    ensures GetRouteParams("/[]") == []
  {
    var s := "/[]";
    assert !GroupAt(s, 0) && !GroupAt(s, 1) && !GroupAt(s, 2);
    NoParamsIffNoGroup(s);
  }

  /** `/blog/[slug]` gives `["slug"]`. */
  lemma GetRouteParamsOneGroup()
    ensures GetRouteParams("/blog/[slug]") == ["slug"]
  {
    var pieces := [Literal("/blog/"), Param("slug")];
    assert Render(pieces[1..]) == "[slug]";
    assert Render(pieces) == "/blog/[slug]";
    GetRouteParamsOfRender(pieces);
  }

  /** `/[a]/[b]` gives `["a", "b"]`, in left-to-right order. */
  lemma GetRouteParamsTwoGroups()
    ensures GetRouteParams("/[a]/[b]") == ["a", "b"]
  {
    var pieces := [Literal("/"), Param("a"), Literal("/"), Param("b")];
    assert Render(pieces[3..]) == "[b]";
    assert Render(pieces[2..]) == "/[b]";
    assert Render(pieces[1..]) == "[a]/[b]";
    assert Render(pieces) == "/[a]/[b]";
    assert ParamNames(pieces[3..]) == ["b"];
    assert ParamNames(pieces[1..]) == ["a", "b"];
    GetRouteParamsOfRender(pieces);
  }
}
