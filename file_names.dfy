/**
 * The file-name sanitiser `getFileName` (source/index.ts, lines 131-141):
 * a title becomes `<stem>.mp3`, where the stem is the HTML-decoded title with
 * its first `:` rewritten to ` -`, its first `#` removed, every run of the
 * characters `< > : " / \ | ? *` collapsed to one `_`, and surrounding
 * whitespace trimmed.
 *
 * The functions below only compute; what they guarantee is stated in the
 * lemmas that follow them.
 */
module FileNames {
  import opened Optional

  /** The characters of the class `[<>:"\/\\|?*]` in the regular expression on line 138. */
  predicate IsReserved(c: char) {
    c == '<' || c == '>' || c == ':' || c == '"' || c == '/' || c == '\\' || c == '|' || c == '?' || c == '*'
  }

  /** The characters `String.prototype.trim` strips: ECMAScript WhiteSpace and LineTerminator. */
  predicate IsWhiteSpace(c: char) {
    c == '\t' || c == '\n' || c == '\U{000B}' || c == '\U{000C}' || c == '\r' || c == ' '
    || c == '\U{00A0}' || c == '\U{1680}' || ('\U{2000}' <= c <= '\U{200A}')
    || c == '\U{2028}' || c == '\U{2029}' || c == '\U{202F}' || c == '\U{205F}'
    || c == '\U{3000}' || c == '\U{FEFF}'
  }

  const Fallback: string := "Unknown_Title.mp3"
  const Extension: string := ".mp3"

  /** JavaScript truthiness of a `string | null` value: present and non-empty. */
  predicate Truthy(s: Option<string>) {
    s.Some? && s.value != ""
  }

  predicate NoReserved(s: string) {
    forall k :: 0 <= k < |s| ==> !IsReserved(s[k])
  }

  /**
   * A title that needs no rewriting: non-empty, unchanged by decoding, with
   * no reserved character, no `#` and no surrounding whitespace.
   */
  predicate PlainTitle(title: string, decode: string -> string) {
    title != "" && decode(title) == title && NoReserved(title) && '#' !in title && Trimmed(title)
  }

  /** Neither the first nor the last character is whitespace. */
  predicate Trimmed(s: string) {
    s == [] || (!IsWhiteSpace(s[0]) && !IsWhiteSpace(s[|s| - 1]))
  }

  /** `s.indexOf(c)`, with `None` for -1. */
  function IndexOf(s: string, c: char): (r: Option<nat>)
    ensures r.Some? ==> r.value < |s| && s[r.value] == c
  {
    if s == [] then None
    else if s[0] == c then Some(0)
    else match IndexOf(s[1..], c)
      case None => None
      case Some(i) => Some(i + 1)
  }

  /** `s.replace(c, rep)` with a one-character string pattern. */
  function ReplaceFirst(s: string, c: char, rep: string): (r: string)
    ensures |r| == |s| || |r| == |s| - 1 + |rep|
  {
    match IndexOf(s, c)
    case None => s
    case Some(i) => s[..i] + rep + s[i + 1..]
  }

  /** Length of the run of reserved characters at the start of `s`. */
  function RunLength(s: string): (n: nat)
    ensures n <= |s|
    ensures forall k :: 0 <= k < n ==> IsReserved(s[k])
    ensures n == |s| || !IsReserved(s[n])
  {
    if s != [] && IsReserved(s[0]) then 1 + RunLength(s[1..]) else 0
  }

  /**
   * `s.replace(/[<>:"\/\\|?*]+/g, '_')`: the global regular expression takes
   * the leftmost match, extends it as far as `+` allows, replaces it by one `_`
   * and resumes after it.
   */
  function ReplaceRuns(s: string): string
    decreases |s|
  {
    if s == [] then []
    else if IsReserved(s[0]) then "_" + ReplaceRuns(s[RunLength(s)..])
    else [s[0]] + ReplaceRuns(s[1..])
  }

  /** `s.trimStart()` */
  function TrimStart(s: string): (r: string)
    ensures |r| <= |s|
  {
    if s != [] && IsWhiteSpace(s[0]) then TrimStart(s[1..]) else s
  }

  /** `s.trimEnd()` */
  function TrimEnd(s: string): (r: string)
    ensures |r| <= |s|
  {
    if s != [] && IsWhiteSpace(s[|s| - 1]) then TrimEnd(s[..|s| - 1]) else s
  }

  /** `s.trim()` */
  function Trim(s: string): (r: string)
    ensures |r| <= |s|
  {
    TrimEnd(TrimStart(s))
  }

  /**
   * The decoded and rewritten title, before `.mp3` is appended (lines 137-140):
   * at most one character longer than the decoded title, the one ` -` adds.
   */
  function Stem(title: string, decode: string -> string): (r: string)
    ensures |r| <= |decode(title)| + 1
  {
    var decoded := decode(title);
    var colonRewritten := ReplaceFirst(decoded, ':', " -");
    var hashRemoved := ReplaceFirst(colonRewritten, '#', "");
    ReplaceRunsShortens(hashRemoved);
    Trim(ReplaceRuns(hashRemoved))
  }

  /** `getFileName(title)`; `decode` stands for the HTML-entity decoder `he.decode`. */
  function FileName(title: Option<string>, decode: string -> string): (r: string)
    ensures Truthy(title) ==> |r| <= |decode(title.value)| + 1 + |Extension|
  {
    if !Truthy(title) then Fallback else Stem(title.value, decode) + Extension
  }

  // ---------------------------------------------------------------------------
  // indexOf and replace with a string pattern

  /** IndexOf finds the first occurrence, and only misses when there is none. */
  lemma {:induction false} IndexOfFirst(s: string, c: char)
    ensures IndexOf(s, c).None? <==> c !in s
    ensures IndexOf(s, c).Some? ==>
      var i := IndexOf(s, c).value; i < |s| && s[i] == c && c !in s[..i]
  {
    if s != [] && s[0] != c {
      IndexOfFirst(s[1..], c);
      assert s == [s[0]] + s[1..];
      if IndexOf(s[1..], c).Some? {
        var i := IndexOf(s[1..], c).value;
        assert s[..i + 1] == [s[0]] + s[1..][..i];
      }
    }
  }

  /**
   * A one-character string pattern replaces the first occurrence only, and
   * leaves the string alone when there is none; exactly one `c` is traded for
   * `rep`.
   */
  lemma {:induction false} ReplaceFirstOnlyFirst(s: string, c: char, rep: string)
    ensures c !in s ==> ReplaceFirst(s, c, rep) == s
    ensures c in s ==> exists i ::
      && 0 <= i < |s| && s[i] == c && c !in s[..i]
      && ReplaceFirst(s, c, rep) == s[..i] + rep + s[i + 1..]
    ensures c in s ==> multiset(ReplaceFirst(s, c, rep)) == multiset(s) - multiset{c} + multiset(rep)
  {
    IndexOfFirst(s, c);
    if c in s {
      var i := IndexOf(s, c).value;
      assert s == s[..i] + [s[i]] + s[i + 1..];
    }
  }

  /** ReplaceFirst neither adds nor removes a character that is neither replaced nor inserted. */
  lemma ReplaceFirstKeepsOther(s: string, c: char, rep: string, d: char)
    requires d != c && d !in rep
    ensures multiset(ReplaceFirst(s, c, rep))[d] == multiset(s)[d]
  {
    ReplaceFirstOnlyFirst(s, c, rep);
  }

  /** ReplaceFirst removes exactly one occurrence of the replaced character, if there is one. */
  lemma ReplaceFirstDropsOne(s: string, c: char, rep: string)
    requires c !in rep
    ensures multiset(ReplaceFirst(s, c, rep))[c] == if c in s then multiset(s)[c] - 1 else 0
  {
    ReplaceFirstOnlyFirst(s, c, rep);
  }

  // ---------------------------------------------------------------------------
  // The global regular expression

  /** No reserved character survives ReplaceRuns. */
  lemma {:induction false} ReplaceRunsSafe(s: string)
    ensures NoReserved(ReplaceRuns(s))
    decreases |s|
  {
    if s != [] {
      if IsReserved(s[0]) {
        ReplaceRunsSafe(s[RunLength(s)..]);
      } else {
        ReplaceRunsSafe(s[1..]);
      }
    }
  }

  /** A run of reserved characters shrinks to one `_`, so the replace never lengthens a string. */
  lemma {:induction false} ReplaceRunsShortens(s: string)
    ensures |ReplaceRuns(s)| <= |s|
    decreases |s|
  {
    if s != [] {
      if IsReserved(s[0]) {
        ReplaceRunsShortens(s[RunLength(s)..]);
      } else {
        ReplaceRunsShortens(s[1..]);
      }
    }
  }

  /** A string without reserved characters is left as it is. */
  lemma {:induction false} ReplaceRunsIdentity(s: string)
    requires NoReserved(s)
    ensures ReplaceRuns(s) == s
  {
    if s != [] {
      ReplaceRunsIdentity(s[1..]);
    }
  }

  /** A run that ends inside `a` ends at the same place in `a + b`. */
  lemma {:induction false} RunLengthConcat(a: string, b: string)
    requires RunLength(a) < |a| || b == [] || !IsReserved(b[0])
    ensures RunLength(a + b) == RunLength(a)
  {
    if a != [] && IsReserved(a[0]) {
      assert (a + b)[1..] == a[1..] + b;
      RunLengthConcat(a[1..], b);
    } else if a == [] {
      assert a + b == b;
    }
  }

  /**
   * Replacing runs distributes over a concatenation whose seam is not inside
   * a run of reserved characters.
   */
  lemma {:induction false} ReplaceRunsConcat(a: string, b: string)
    requires a == [] || b == [] || !IsReserved(a[|a| - 1]) || !IsReserved(b[0])
    ensures ReplaceRuns(a + b) == ReplaceRuns(a) + ReplaceRuns(b)
    decreases |a|
  {
    if a == [] {
      assert a + b == b;
    } else if !IsReserved(a[0]) {
      assert (a + b)[1..] == a[1..] + b;
      ReplaceRunsConcat(a[1..], b);
    } else {
      var n := RunLength(a);
      assert (a + b)[0] == a[0];
      RunLengthConcat(a, b);
      assert (a + b)[n..] == a[n..] + b;
      assert ReplaceRuns(a + b) == "_" + ReplaceRuns(a[n..] + b);
      assert ReplaceRuns(a) == "_" + ReplaceRuns(a[n..]);
      if n < |a| {
        ReplaceRunsConcat(a[n..], b);
      } else {
        assert a[n..] == [];
      }
    }
  }

  /** A leading run of reserved characters, followed by a non-reserved one or nothing, becomes one `_`. */
  lemma {:induction false} ReplaceRunsLeadingRun(run: string, b: string)
    requires |run| > 0 && forall k :: 0 <= k < |run| ==> IsReserved(run[k])
    requires b == [] || !IsReserved(b[0])
    ensures ReplaceRuns(run + b) == "_" + ReplaceRuns(b)
  {
    assert RunLength(run) == |run|;
    RunLengthConcat(run, b);
    assert (run + b)[0] == run[0];
    assert (run + b)[|run|..] == b;
  }

  /**
   * Each maximal run of reserved characters becomes exactly one `_`: with `a`
   * not ending and `b` not starting in a reserved character, the run between
   * them contributes a single `_` and nothing else changes.
   */
  lemma {:induction false} ReplaceRunsCollapsesRun(a: string, run: string, b: string)
    requires a == [] || !IsReserved(a[|a| - 1])
    requires |run| > 0 && forall k :: 0 <= k < |run| ==> IsReserved(run[k])
    requires b == [] || !IsReserved(b[0])
    ensures ReplaceRuns(a + (run + b)) == ReplaceRuns(a) + ("_" + ReplaceRuns(b))
  {
    ReplaceRunsConcat(a, run + b);
    ReplaceRunsLeadingRun(run, b);
  }

  /** Characters other than the reserved ones and `_` are neither added nor lost by ReplaceRuns. */
  lemma {:induction false} ReplaceRunsKeeps(s: string, c: char)
    requires !IsReserved(c) && c != '_'
    ensures multiset(ReplaceRuns(s))[c] == multiset(s)[c]
    decreases |s|
  {
    if s != [] {
      if IsReserved(s[0]) {
        var n := RunLength(s);
        assert s == s[..n] + s[n..];
        assert c !in s[..n];
        ReplaceRunsKeeps(s[n..], c);
      } else {
        assert s == [s[0]] + s[1..];
        ReplaceRunsKeeps(s[1..], c);
      }
    }
  }

  // ---------------------------------------------------------------------------
  // trim

  /** trimStart removes exactly the leading whitespace. */
  lemma {:induction false} TrimStartSpec(s: string)
    ensures |TrimStart(s)| <= |s| && TrimStart(s) == s[|s| - |TrimStart(s)|..]
    ensures forall k :: 0 <= k < |s| - |TrimStart(s)| ==> IsWhiteSpace(s[k])
    ensures TrimStart(s) == [] || !IsWhiteSpace(TrimStart(s)[0])
  {
    if s != [] && IsWhiteSpace(s[0]) {
      var r := TrimStart(s[1..]);
      TrimStartSpec(s[1..]);
      assert TrimStart(s) == r;
      assert s[1..][|s| - 1 - |r|..] == s[|s| - |r|..];
      forall k | 0 <= k < |s| - |r|
        ensures IsWhiteSpace(s[k])
      {
        if k > 0 {
          assert s[k] == s[1..][k - 1];
        }
      }
    }
  }

  /** trimEnd removes exactly the trailing whitespace. */
  lemma {:induction false} TrimEndSpec(s: string)
    ensures |TrimEnd(s)| <= |s| && TrimEnd(s) == s[..|TrimEnd(s)|]
    ensures forall k :: |TrimEnd(s)| <= k < |s| ==> IsWhiteSpace(s[k])
    ensures TrimEnd(s) == [] || !IsWhiteSpace(TrimEnd(s)[|TrimEnd(s)| - 1])
  {
    if s != [] && IsWhiteSpace(s[|s| - 1]) {
      var r := TrimEnd(s[..|s| - 1]);
      TrimEndSpec(s[..|s| - 1]);
      assert TrimEnd(s) == r;
      assert s[..|s| - 1][..|r|] == s[..|r|];
      forall k | |r| <= k < |s|
        ensures IsWhiteSpace(s[k])
      {
        if k < |s| - 1 {
          assert s[k] == s[..|s| - 1][k];
        }
      }
    }
  }

  /** Trimming leaves no whitespace at either end and adds no reserved character. */
  lemma TrimTrims(s: string)
    ensures Trimmed(Trim(s))
    ensures NoReserved(s) ==> NoReserved(Trim(s))
  {
    var t := TrimStart(s);
    var r := TrimEnd(t);
    TrimStartSpec(s);
    TrimEndSpec(t);
    if r != [] {
      assert r[0] == t[0];
    }
    if NoReserved(s) {
      forall k | 0 <= k < |r|
        ensures !IsReserved(r[k])
      {
        assert r[k] == t[k] == s[|s| - |t| + k];
      }
    }
  }

  lemma TrimStartKeeps(s: string, c: char)
    requires !IsWhiteSpace(c)
    ensures multiset(TrimStart(s))[c] == multiset(s)[c]
  {
    var t := TrimStart(s);
    TrimStartSpec(s);
    assert s == s[..|s| - |t|] + t;
    assert c !in s[..|s| - |t|];
  }

  lemma TrimEndKeeps(s: string, c: char)
    requires !IsWhiteSpace(c)
    ensures multiset(TrimEnd(s))[c] == multiset(s)[c]
  {
    var r := TrimEnd(s);
    TrimEndSpec(s);
    assert s == r + s[|r|..];
    assert c !in s[|r|..];
  }

  /** Trimming removes whitespace only, so every other character keeps its count. */
  lemma TrimKeeps(s: string, c: char)
    requires !IsWhiteSpace(c)
    ensures multiset(Trim(s))[c] == multiset(s)[c]
  {
    TrimStartKeeps(s, c);
    TrimEndKeeps(TrimStart(s), c);
  }

  // ---------------------------------------------------------------------------
  // getFileName

  /** The stem holds no reserved character and no surrounding whitespace. */
  lemma StemSafe(title: string, decode: string -> string)
    ensures NoReserved(Stem(title, decode)) && Trimmed(Stem(title, decode))
  {
    var hashRemoved := ReplaceFirst(ReplaceFirst(decode(title), ':', " -"), '#', "");
    ReplaceRunsSafe(hashRemoved);
    TrimTrims(ReplaceRuns(hashRemoved));
  }

  /**
   * Every file name ends in `.mp3`, and what precedes it holds no reserved
   * character and no surrounding whitespace; a null or empty title gives
   * `Unknown_Title.mp3`.
   */
  lemma {:induction false} FileNameShape(title: Option<string>, decode: string -> string)
    ensures !Truthy(title) ==> FileName(title, decode) == "Unknown_Title.mp3"
    ensures var r := FileName(title, decode);
      |r| >= |Extension| && r[|r| - |Extension|..] == Extension &&
      NoReserved(r[..|r| - |Extension|]) && Trimmed(r[..|r| - |Extension|])
  {
    if !Truthy(title) {
      assert Fallback[..|Fallback| - |Extension|] == "Unknown_Title";
    } else {
      var stem := Stem(title.value, decode);
      StemSafe(title.value, decode);
      assert (stem + Extension)[..|stem|] == stem;
    }
  }

  /** The last two stages keep every character that is neither reserved, `_` nor whitespace. */
  lemma CollapseAndTrimKeep(s: string, c: char)
    requires !IsReserved(c) && c != '_' && !IsWhiteSpace(c)
    ensures multiset(Trim(ReplaceRuns(s)))[c] == multiset(s)[c]
  {
    ReplaceRunsKeeps(s, c);
    TrimKeeps(ReplaceRuns(s), c);
  }

  /**
   * Only the first `#` of the decoded title is removed: every later `#` is
   * still in the stem.
   */
  lemma StemDropsFirstHashOnly(title: string, decode: string -> string)
    ensures multiset(Stem(title, decode))['#'] ==
      if '#' in decode(title) then multiset(decode(title))['#'] - 1 else 0
  {
    var decoded := decode(title);
    var colonRewritten := ReplaceFirst(decoded, ':', " -");
    var hashRemoved := ReplaceFirst(colonRewritten, '#', "");
    ReplaceFirstKeepsOther(decoded, ':', " -", '#');
    ReplaceFirstDropsOne(colonRewritten, '#', "");
    CollapseAndTrimKeep(hashRemoved, '#');
  }

  /**
   * The first `:` of the decoded title becomes ` -`: the stem holds one `-`
   * more than the decoded title exactly when the title has a colon.
   */
  lemma StemRewritesFirstColon(title: string, decode: string -> string)
    ensures multiset(Stem(title, decode))['-'] ==
      multiset(decode(title))['-'] + if ':' in decode(title) then 1 else 0
  {
    var decoded := decode(title);
    var colonRewritten := ReplaceFirst(decoded, ':', " -");
    var hashRemoved := ReplaceFirst(colonRewritten, '#', "");
    ReplaceFirstOnlyFirst(decoded, ':', " -");
    ReplaceFirstKeepsOther(colonRewritten, '#', "", '-');
    CollapseAndTrimKeep(hashRemoved, '-');
  }

  /**
   * Every character that none of the rewrites produces or consumes (not
   * reserved, not whitespace, not `_`, `-` or `#`) occurs in the stem exactly
   * as often as in the decoded title.
   */
  lemma StemKeepsOrdinary(title: string, decode: string -> string, c: char)
    requires !IsReserved(c) && !IsWhiteSpace(c) && c != '_' && c != '-' && c != '#'
    ensures multiset(Stem(title, decode))[c] == multiset(decode(title))[c]
  {
    var decoded := decode(title);
    var colonRewritten := ReplaceFirst(decoded, ':', " -");
    var hashRemoved := ReplaceFirst(colonRewritten, '#', "");
    ReplaceFirstKeepsOther(decoded, ':', " -", c);
    ReplaceFirstKeepsOther(colonRewritten, '#', "", c);
    CollapseAndTrimKeep(hashRemoved, c);
  }

  /** A title that needs no rewriting is kept as it is. */
  lemma PlainTitleKept(title: string, decode: string -> string)
    requires PlainTitle(title, decode)
    ensures FileName(Some(title), decode) == title + Extension
  {
    assert IsReserved(':');
    ReplaceFirstOnlyFirst(title, ':', " -");
    ReplaceFirstOnlyFirst(title, '#', "");
    ReplaceRunsIdentity(title);
  }
}
