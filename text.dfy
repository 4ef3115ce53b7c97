/** Character classes, substring search and the whitespace/tag clean-up that the
    page tools share. Strings are sequences of Unicode scalar values, as Python's str. */
module Text {

  datatype Option<T> = None | Some(value: T)

  /** Python's whitespace: what str.isspace accepts, and what \s matches in a str pattern. */
  predicate IsSpace(c: char) {
    || '\t' <= c <= '\r'
    || '\U{1C}' <= c <= ' '
    || c == '\U{85}' || c == '\U{A0}' || c == '\U{1680}'
    || '\U{2000}' <= c <= '\U{200A}'
    || c == '\U{2028}' || c == '\U{2029}' || c == '\U{202F}' || c == '\U{205F}' || c == '\U{3000}'
  }

  predicate IsQuote(c: char) {
    c == '"' || c == '\''
  }

  /** A character that \w matches, restricted to ASCII. */
  predicate IsWordChar(c: char) {
    'a' <= c <= 'z' || 'A' <= c <= 'Z' || '0' <= c <= '9' || c == '_'
  }

  /** ASCII case folding, as re.I applies it to the ASCII patterns of the tools. */
  function Lower(c: char): (r: char)
    ensures 'A' <= c <= 'Z' ==> 'a' <= r <= 'z'
    ensures !('A' <= c <= 'Z') ==> r == c
  {
    if 'A' <= c <= 'Z' then (c as int + 32) as char else c
  }

  /** \b at position k of s: a word character on exactly one side. */
  predicate WordBoundary(s: string, k: int) {
    0 <= k <= |s| &&
    ((k > 0 && IsWordChar(s[k - 1])) != (k < |s| && IsWordChar(s[k])))
  }

  predicate OccursAt(s: string, k: int, p: string) {
    0 <= k && k + |p| <= |s| && s[k..k + |p|] == p
  }

  /** p (written in lower case) occurs at k of s when s is folded to lower case. */
  predicate OccursAtIgnoreCase(s: string, k: int, p: string) {
    0 <= k && k + |p| <= |s| && forall j :: 0 <= j < |p| ==> Lower(s[k + j]) == p[j]
  }

  /** A pattern with no upper-case letter that occurs as it is also occurs ignoring case. */
  lemma LowerCaseOccurs(s: string, k: int, p: string)
    requires OccursAt(s, k, p)
    requires forall j :: 0 <= j < |p| ==> !('A' <= p[j] <= 'Z')
    ensures OccursAtIgnoreCase(s, k, p)
  {
    forall j | 0 <= j < |p| ensures Lower(s[k + j]) == p[j] {
      assert s[k..k + |p|][j] == s[k + j];
    }
  }

  /** A one-character pattern occurs exactly where that character is. */
  lemma CharAt(s: string, g: int, c: char)
    requires 0 <= g < |s|
    ensures OccursAt(s, g, [c]) <==> s[g] == c
  {
    assert s[g..g + 1] == [s[g]];
  }

  /** Python's `p in s`. */
  predicate Contains(s: string, p: string) {
    exists k :: 0 <= k <= |s| && OccursAt(s, k, p)
  }

  /** The first occurrence of p at or after index `from`. */
  function FindFrom(s: string, p: string, from: nat): (r: Option<nat>)
    requires from <= |s|
    ensures r.Some? ==> from <= r.value && OccursAt(s, r.value, p)
    ensures r.Some? ==> forall k :: from <= k < r.value ==> !OccursAt(s, k, p)
    ensures r.None? ==> forall k :: from <= k ==> !OccursAt(s, k, p)
    decreases |s| - from
  {
    if OccursAt(s, from, p) then Some(from)
    else if from == |s| then None
    else FindFrom(s, p, from + 1)
  }

  /** The first occurrence of p in s, case-sensitive (str.find). */
  function Find(s: string, p: string): (r: Option<nat>)
    ensures r.Some? <==> Contains(s, p)
    ensures r.Some? ==> OccursAt(s, r.value, p) && forall k :: 0 <= k < r.value ==> !OccursAt(s, k, p)
  {
    FindFrom(s, p, 0)
  }

  /** The first case-insensitive occurrence of p at or after index `from`. */
  function FindFromIgnoreCase(s: string, p: string, from: nat): (r: Option<nat>)
    requires from <= |s|
    ensures r.Some? ==> from <= r.value && OccursAtIgnoreCase(s, r.value, p)
    ensures r.Some? ==> forall k :: from <= k < r.value ==> !OccursAtIgnoreCase(s, k, p)
    ensures r.None? ==> forall k :: from <= k ==> !OccursAtIgnoreCase(s, k, p)
    decreases |s| - from
  {
    if OccursAtIgnoreCase(s, from, p) then Some(from)
    else if from == |s| then None
    else FindFromIgnoreCase(s, p, from + 1)
  }

  /** Python's `s.replace(pat, rep, 1)`: a split at the first occurrence of pat. */
  function ReplaceFirst(s: string, pat: string, rep: string): (r: string)
    ensures !Contains(s, pat) ==> r == s
    ensures Contains(s, pat) ==> |r| == |s| - |pat| + |rep|
  {
    match Find(s, pat)
    case None => s
    case Some(i) => s[..i] + rep + s[i + |pat|..]
  }

  /** The three parts of a concatenation are its slices. */
  lemma ConcatParts(a: string, b: string, c: string)
    ensures (a + b + c)[..|a|] == a
    ensures (a + b + c)[|a|..|a| + |b|] == b
    ensures (a + b + c)[|a| + |b|..] == c
  {
  }

  lemma {:induction false} ReplaceFirstSplit(s: string, pat: string, rep: string, i: nat)
    requires OccursAt(s, i, pat)
    requires forall k :: 0 <= k < i ==> !OccursAt(s, k, pat)
    ensures ReplaceFirst(s, pat, rep) == s[..i] + rep + s[i + |pat|..]
  {
    var f := Find(s, pat);
    assert f.Some?;
    if f.value < i {
    } else if f.value > i {
    }
  }

  /** Replacing the first pat by pat + tail inserts tail right after that occurrence. */
  lemma InsertAfterFirst(s: string, pat: string, tail: string, i: nat)
    requires OccursAt(s, i, pat)
    requires forall k :: 0 <= k < i ==> !OccursAt(s, k, pat)
    ensures ReplaceFirst(s, pat, pat + tail) == s[..i + |pat|] + tail + s[i + |pat|..]
  {
    ReplaceFirstSplit(s, pat, pat + tail, i);
    assert s[..i + |pat|] == s[..i] + pat;
  }

  // ---------------------------------------------------------------------------
  // str.strip() and re.sub(r"\s+", " ", s).strip()

  function TrimStart(s: string): (r: string)
    ensures |r| <= |s| && r == s[|s| - |r|..]
    ensures r == [] || !IsSpace(r[0])
    ensures forall k :: 0 <= k < |s| - |r| ==> IsSpace(s[k])
  {
    if s != [] && IsSpace(s[0]) then TrimStart(s[1..]) else s
  }

  function TrimEnd(s: string): (r: string)
    ensures |r| <= |s| && r == s[..|r|]
    ensures r == [] || !IsSpace(r[|r| - 1])
    ensures forall k :: |r| <= k < |s| ==> IsSpace(s[k])
  {
    if s != [] && IsSpace(s[|s| - 1]) then TrimEnd(s[..|s| - 1]) else s
  }

  /** Python's str.strip() with no argument. */
  function Strip(s: string): (r: string)
    ensures r == [] || (!IsSpace(r[0]) && !IsSpace(r[|r| - 1]))
    ensures |r| <= |s|
    ensures exists i :: StrippedAt(s, r, i)
  {
    StripSpec(s);
    TrimEnd(TrimStart(s))
  }

  lemma StripSpec(s: string)
    ensures StrippedAt(s, TrimEnd(TrimStart(s)), |s| - |TrimStart(s)|)
  {
    var t := TrimStart(s);
    StrippedSlices(s, t, TrimEnd(t), |s| - |t|);
  }

  /** A prefix of a suffix, with whitespace cut off on both sides, is a stripped slice. */
  lemma StrippedSlices(s: string, t: string, r: string, i: int)
    requires 0 <= i <= |s| && t == s[i..] && |r| <= |t| && r == t[..|r|]
    requires forall k :: 0 <= k < i ==> IsSpace(s[k])
    requires forall k :: |r| <= k < |t| ==> IsSpace(t[k])
    ensures StrippedAt(s, r, i)
  {
    assert r == s[i..i + |r|];
    assert forall k :: i + |r| <= k < |s| ==> s[k] == t[k - i];
  }

  /** r is the slice of s at i, and everything around it is whitespace. */
  ghost predicate StrippedAt(s: string, r: string, i: int) {
    && 0 <= i && i + |r| <= |s| && r == s[i..i + |r|]
    && forall k :: (0 <= k < i || i + |r| <= k < |s|) ==> IsSpace(s[k])
  }

  /** A stripped text with one whitespace character appended strips back to itself. */
  lemma StripAppendSpace(t: string, c: char)
    requires IsSpace(c)
    requires t == [] || (!IsSpace(t[0]) && !IsSpace(t[|t| - 1]))
    ensures Strip(t + [c]) == t
  {
    if t == [] {
      TrimStartUnique([c], [c], []);
      TrimEndUnique([], [], []);
    } else {
      TrimStartUnique(t + [c], [], t + [c]);
      TrimEndUnique(t + [c], t, [c]);
    }
  }

  /** The non-whitespace characters of s, in order. */
  function NonSpace(s: string): string {
    if s == [] then [] else (if IsSpace(s[0]) then [] else [s[0]]) + NonSpace(s[1..])
  }

  /** Every whitespace character is a single space between two non-space characters. */
  predicate Collapsed(s: string) {
    && (forall i :: 0 <= i < |s| && IsSpace(s[i]) ==> s[i] == ' ')
    && (forall i, j :: 0 <= i < |s| && 0 <= j < |s| && j == i + 1 ==> !(IsSpace(s[i]) && IsSpace(s[j])))
  }

  predicate SpaceNormal(s: string) {
    Collapsed(s) && (s == [] || (!IsSpace(s[0]) && !IsSpace(s[|s| - 1])))
  }

  /** Drops the maximal run of whitespace at the front. */
  function DropSpaces(s: string): (r: string)
    ensures |r| <= |s| && r == s[|s| - |r|..]
    ensures r == [] || !IsSpace(r[0])
    ensures NonSpace(r) == NonSpace(s)
  {
    if s != [] && IsSpace(s[0]) then DropSpaces(s[1..]) else s
  }

  /** re.sub(r"\s+", " ", s): every maximal whitespace run becomes one space. */
  function Collapse(s: string): (r: string)
    ensures |r| <= |s|
    ensures s == [] <==> r == []
    ensures s != [] && IsSpace(s[0]) ==> r[0] == ' '
    ensures s != [] && !IsSpace(s[0]) ==> r[0] == s[0]
    decreases |s|
  {
    if s == [] then []
    else if IsSpace(s[0]) then [' '] + Collapse(DropSpaces(s[1..]))
    else [s[0]] + Collapse(s[1..])
  }

  /** One character in front of a collapsed text keeps it collapsed, unless it starts a
      second whitespace character in a row. */
  lemma CollapsedCons(c: char, t: string)
    requires Collapsed(t)
    requires IsSpace(c) ==> c == ' ' && (t == [] || !IsSpace(t[0]))
    ensures Collapsed([c] + t)
  {
    var r := [c] + t;
    forall i | 0 <= i < |r| && IsSpace(r[i]) ensures r[i] == ' ' {
      if i > 0 { assert r[i] == t[i - 1]; }
    }
    forall i, j | 0 <= i < |r| && 0 <= j < |r| && j == i + 1 ensures !(IsSpace(r[i]) && IsSpace(r[j])) {
      if i > 0 {
        assert r[i] == t[i - 1] && r[j] == t[j - 1];
      }
    }
  }

  lemma {:induction false} CollapseCollapsed(s: string)
    ensures Collapsed(Collapse(s))
    decreases |s|
  {
    if s == [] {
    } else if IsSpace(s[0]) {
      var rest := DropSpaces(s[1..]);
      CollapseCollapsed(rest);
      CollapsedCons(' ', Collapse(rest));
    } else {
      CollapseCollapsed(s[1..]);
      CollapsedCons(s[0], Collapse(s[1..]));
    }
  }

  lemma {:induction false} CollapseNonSpace(s: string)
    ensures NonSpace(Collapse(s)) == NonSpace(s)
    decreases |s|
  {
    if s != [] {
      if IsSpace(s[0]) {
        var rest := DropSpaces(s[1..]);
        CollapseNonSpace(rest);
        assert ([' '] + Collapse(rest))[1..] == Collapse(rest);
      } else {
        CollapseNonSpace(s[1..]);
        assert ([s[0]] + Collapse(s[1..]))[1..] == Collapse(s[1..]);
      }
    }
  }

  lemma InSuffix(s: string, k: int, c: char)
    requires 0 <= k <= |s| && c in s[k..]
    ensures c in s
  {
    var x :| 0 <= x < |s[k..]| && s[k..][x] == c;
    assert s[k + x] == c;
  }

  /** Collapsing keeps every non-space character in the text it came from. */
  lemma {:induction false} CollapseChars(s: string, c: char)
    requires !IsSpace(c)
    ensures c in Collapse(s) ==> c in s
    decreases |s|
  {
    if s != [] && c in Collapse(s) {
      if IsSpace(s[0]) {
        var rest := DropSpaces(s[1..]);
        assert Collapse(s) == [' '] + Collapse(rest);
        assert c in Collapse(rest);
        CollapseChars(rest, c);
        assert rest == s[1..][|s[1..]| - |rest|..];
        InSuffix(s[1..], |s[1..]| - |rest|, c);
        InSuffix(s, 1, c);
      } else {
        assert Collapse(s) == [s[0]] + Collapse(s[1..]);
        if c != s[0] {
          assert c in Collapse(s[1..]);
          CollapseChars(s[1..], c);
          InSuffix(s, 1, c);
        }
      }
    }
  }

  lemma {:induction false} NonSpaceOfSpaces(s: string)
    requires forall k :: 0 <= k < |s| ==> IsSpace(s[k])
    ensures NonSpace(s) == []
  {
    if s != [] { NonSpaceOfSpaces(s[1..]); }
  }

  lemma {:induction false} NonSpaceAppend(a: string, b: string)
    ensures NonSpace(a + b) == NonSpace(a) + NonSpace(b)
  {
    if a == [] {
      assert a + b == b;
    } else {
      assert (a + b)[1..] == a[1..] + b;
      NonSpaceAppend(a[1..], b);
    }
  }

  lemma CollapsedSuffix(s: string, i: int, t: string)
    requires Collapsed(s) && 0 <= i <= |s| && t == s[i..]
    ensures Collapsed(t)
  {
    assert forall k :: 0 <= k < |t| ==> t[k] == s[i + k];
  }

  lemma CollapsedPrefix(s: string, j: int, t: string)
    requires Collapsed(s) && 0 <= j <= |s| && t == s[..j]
    ensures Collapsed(t)
  {
    assert forall k :: 0 <= k < |t| ==> t[k] == s[k];
  }

  lemma {:induction false} TrimStartNonSpace(s: string)
    ensures NonSpace(TrimStart(s)) == NonSpace(s)
  {
    if s != [] && IsSpace(s[0]) { TrimStartNonSpace(s[1..]); }
  }

  lemma {:induction false} TrimEndNonSpace(s: string)
    ensures NonSpace(TrimEnd(s)) == NonSpace(s)
  {
    if s != [] && IsSpace(s[|s| - 1]) {
      var p := s[..|s| - 1];
      TrimEndNonSpace(p);
      assert s == p + [s[|s| - 1]];
      NonSpaceAppend(p, [s[|s| - 1]]);
      assert NonSpace([s[|s| - 1]]) == [];
    }
  }

  lemma CollapsedStrip(c: string)
    requires Collapsed(c)
    ensures Collapsed(TrimEnd(TrimStart(c)))
  {
    var a := TrimStart(c);
    var r := TrimEnd(a);
    CollapsedSuffix(c, |c| - |a|, a);
    CollapsedPrefix(a, |r|, r);
  }

  lemma NormalizedCollapsed(s: string)
    ensures Collapsed(TrimEnd(TrimStart(Collapse(s))))
  {
    CollapseCollapsed(s);
    CollapsedStrip(Collapse(s));
  }

  lemma NormalizedEnds(s: string)
    ensures var r := TrimEnd(TrimStart(Collapse(s)));
      r == [] || (!IsSpace(r[0]) && !IsSpace(r[|r| - 1]))
  {
    var a := TrimStart(Collapse(s));
    var r := TrimEnd(a);
    if r != [] { assert r[0] == a[0]; }
  }

  lemma NormalizedNonSpace(s: string)
    ensures NonSpace(TrimEnd(TrimStart(Collapse(s)))) == NonSpace(s)
  {
    var c := Collapse(s);
    CollapseNonSpace(s);
    TrimStartNonSpace(c);
    TrimEndNonSpace(TrimStart(c));
  }

  // ---------------------------------------------------------------------------
  // An independent reference for the normalisation: " ".join(s.split())

  /** The length of the leading run of non-whitespace characters. */
  function WordLength(s: string): (n: nat)
    ensures n <= |s|
    ensures forall k :: 0 <= k < n ==> !IsSpace(s[k])
    ensures n == |s| || IsSpace(s[n])
  {
    if s == [] || IsSpace(s[0]) then 0
    else
      var n := WordLength(s[1..]);
      assert forall k :: 1 <= k < n + 1 ==> s[k] == s[1..][k - 1];
      1 + n
  }

  lemma WordLengthPositive(t: string)
    requires t != [] && !IsSpace(t[0])
    ensures WordLength(t) >= 1
  {
  }

  /** A non-empty run of non-whitespace characters. */
  predicate IsWord(w: string) {
    w != [] && forall k :: 0 <= k < |w| ==> !IsSpace(w[k])
  }

  /** Python's str.split() with no argument: the maximal runs of non-whitespace. */
  function Words(s: string): seq<string>
    decreases |s|
  {
    var t := DropSpaces(s);
    if t == [] then []
    else
      var n := WordLength(t);
      WordLengthPositive(t);
      [t[..n]] + Words(t[n..])
  }

  /** Every piece of the split is a non-empty run of non-whitespace. */
  lemma {:induction false} WordsAreWords(s: string)
    ensures forall i :: 0 <= i < |Words(s)| ==> IsWord(Words(s)[i])
    decreases |s|
  {
    var t := DropSpaces(s);
    if t != [] {
      var n := WordLength(t);
      WordLengthPositive(t);
      var w := t[..n];
      assert IsWord(w) by {
        assert forall k :: 0 <= k < n ==> w[k] == t[k];
      }
      WordsAreWords(t[n..]);
      WordsFront(w, Words(t[n..]));
    }
  }

  lemma WordsFront(w: string, rest: seq<string>)
    requires IsWord(w)
    requires forall i :: 0 <= i < |rest| ==> IsWord(rest[i])
    ensures forall i :: 0 <= i < |[w] + rest| ==> IsWord(([w] + rest)[i])
  {
  }

  /** sep.join(ws) */
  function Join(ws: seq<string>, sep: string): string {
    if ws == [] then [] else if |ws| == 1 then ws[0] else ws[0] + sep + Join(ws[1..], sep)
  }

  /** The only way to strip leading whitespace. */
  lemma TrimStartUnique(s: string, sp: string, r: string)
    requires s == sp + r
    requires forall k :: 0 <= k < |sp| ==> IsSpace(sp[k])
    requires r == [] || !IsSpace(r[0])
    ensures TrimStart(s) == r
  {
    var t := TrimStart(s);
    var m := |s| - |t|;
    assert t != [] ==> t[0] == s[m];
    assert forall k :: 0 <= k < |sp| ==> s[k] == sp[k];
    assert r != [] ==> s[|sp|] == r[0];
    assert m == |sp|;
  }

  /** The only way to strip trailing whitespace. */
  lemma TrimEndUnique(s: string, r: string, sp: string)
    requires s == r + sp
    requires forall k :: 0 <= k < |sp| ==> IsSpace(sp[k])
    requires r == [] || !IsSpace(r[|r| - 1])
    ensures TrimEnd(s) == r
  {
    var t := TrimEnd(s);
    var m := |t|;
    assert t != [] ==> t[m - 1] == s[m - 1];
    assert forall k :: |r| <= k < |s| ==> s[k] == sp[k - |r|];
    assert r != [] ==> s[|r| - 1] == r[|r| - 1];
    assert m == |r|;
  }

  /** Collapsing goes through a word unchanged. */
  lemma {:induction false} CollapseWord(w: string, r: string)
    requires forall k :: 0 <= k < |w| ==> !IsSpace(w[k])
    ensures Collapse(w + r) == w + Collapse(r)
    decreases |w|
  {
    if w == [] {
      assert w + r == r;
    } else {
      var s := w + r;
      assert s[0] == w[0] && !IsSpace(s[0]) && s[1..] == w[1..] + r;
      assert Collapse(s) == [w[0]] + Collapse(w[1..] + r);
      assert forall k :: 0 <= k < |w[1..]| ==> w[1..][k] == w[k + 1];
      CollapseWord(w[1..], r);
      ConsSplit(w, Collapse(r));
    }
  }

  lemma ConsSplit(w: string, tail: string)
    requires w != []
    ensures [w[0]] + (w[1..] + tail) == w + tail
  {
    assert w == [w[0]] + w[1..];
  }

  /** Stripping the front of the collapsed text is collapsing without the leading run. */
  lemma CollapseLeading(s: string)
    ensures TrimStart(Collapse(s)) == Collapse(DropSpaces(s))
  {
    var u := DropSpaces(s);
    var c := Collapse(u);
    if s != [] && IsSpace(s[0]) {
      assert u == DropSpaces(s[1..]);
      TrimStartUnique(Collapse(s), [' '], c);
    } else {
      TrimStartUnique(c, [], c);
    }
  }

  /** A text starting with a word splits into that word and the words after it. */
  lemma WordsStep(t: string)
    requires t != [] && !IsSpace(t[0])
    ensures 1 <= WordLength(t) && Words(t) == [t[..WordLength(t)]] + Words(t[WordLength(t)..])
  {
    assert DropSpaces(t) == t;
  }

  /** Leading whitespace changes neither the words nor, beyond one space, the collapse. */
  lemma LeadingSpaces(rest: string)
    requires rest != [] && IsSpace(rest[0])
    ensures Words(rest) == Words(DropSpaces(rest))
    ensures Collapse(rest) == [' '] + Collapse(DropSpaces(rest))
  {
    var u := DropSpaces(rest);
    assert u == DropSpaces(rest[1..]);
    assert DropSpaces(u) == u;
  }

  lemma JoinCons(w: string, ws: seq<string>, sep: string)
    requires ws != []
    ensures Join([w] + ws, sep) == w + sep + Join(ws, sep)
  {
    assert ([w] + ws)[1..] == ws;
  }

  /** A collapsed text that starts with a word does not strip to nothing. */
  lemma TrimEndOfWordStart(u: string)
    requires u != [] && !IsSpace(u[0])
    ensures TrimEnd(Collapse(u)) != []
    ensures Collapse(u) == TrimEnd(Collapse(u)) + Collapse(u)[|TrimEnd(Collapse(u))|..]
    ensures var tail := Collapse(u)[|TrimEnd(Collapse(u))|..]; forall k :: 0 <= k < |tail| ==> IsSpace(tail[k])
  {
    var c := Collapse(u);
    assert c[0] == u[0];
    TrimEndSplit(c);
  }

  /** Stripping the end cuts off a suffix of whitespace. */
  lemma TrimEndSplit(c: string)
    ensures c == TrimEnd(c) + c[|TrimEnd(c)|..]
    ensures var tail := c[|TrimEnd(c)|..]; forall k :: 0 <= k < |tail| ==> IsSpace(tail[k])
  {
    PrefixAndSpaces(c, TrimEnd(c));
  }

  lemma PrefixAndSpaces(c: string, e: string)
    requires |e| <= |c| && e == c[..|e|]
    requires forall k :: |e| <= k < |c| ==> IsSpace(c[k])
    ensures c == e + c[|e|..]
    ensures var tail := c[|e|..]; forall k :: 0 <= k < |tail| ==> IsSpace(tail[k])
  {
    assert forall k :: 0 <= k < |c| - |e| ==> c[|e|..][k] == c[|e| + k];
  }

  /** A word, a space and a stripped text, followed by whitespace, strip at that text's end. */
  lemma TrimEndAfterWord(w: string, e: string, tail: string)
    requires e != [] && !IsSpace(e[|e| - 1])
    requires forall k :: 0 <= k < |tail| ==> IsSpace(tail[k])
    ensures TrimEnd(w + ([' '] + (e + tail))) == w + " " + e
  {
    assert w + ([' '] + (e + tail)) == (w + " " + e) + tail;
    TrimEndUnique(w + ([' '] + (e + tail)), w + " " + e, tail);
  }

  /** The step of NormalizedWords: a word in front of a space and a normalised rest. */
  lemma NormalizedAfterWord(w: string, u: string)
    requires u != [] && !IsSpace(u[0])
    requires TrimEnd(Collapse(u)) == Join(Words(u), " ")
    ensures TrimEnd(w + ([' '] + Collapse(u))) == Join([w] + Words(u), " ")
  {
    TrimEndOfWordStart(u);
    var c := Collapse(u);
    var e := TrimEnd(c);
    TrimEndAfterWord(w, e, c[|e|..]);
    WordsStep(u);
    JoinCons(w, Words(u), " ");
  }

  /** A text starting with a word collapses and splits as that word followed by the rest. */
  lemma FirstWord(t: string, w: string, rest: string)
    requires t != [] && !IsSpace(t[0])
    requires w == t[..WordLength(t)] && rest == t[WordLength(t)..]
    ensures Collapse(t) == w + Collapse(rest)
    ensures Words(t) == [w] + Words(rest)
    ensures rest == [] || IsSpace(rest[0])
    ensures w != [] && !IsSpace(w[|w| - 1])
  {
    WordsStep(t);
    WordSplit(t, WordLength(t), w, rest);
    CollapseWord(w, rest);
  }

  lemma WordSplit(t: string, n: int, w: string, rest: string)
    requires 1 <= n <= |t| && w == t[..n] && rest == t[n..]
    requires forall k :: 0 <= k < n ==> !IsSpace(t[k])
    requires n == |t| || IsSpace(t[n])
    ensures t == w + rest
    ensures forall k :: 0 <= k < |w| ==> !IsSpace(w[k])
    ensures rest == [] || IsSpace(rest[0])
    ensures !IsSpace(w[|w| - 1])
  {
    assert forall k :: 0 <= k < |w| ==> w[k] == t[k];
    assert rest != [] ==> rest[0] == t[n];
  }

  /** A word followed by nothing but whitespace normalises to that word. */
  lemma LastWord(w: string, rest: string)
    requires w != [] && !IsSpace(w[|w| - 1])
    requires DropSpaces(rest) == []
    ensures TrimEnd(w + Collapse(rest)) == Join([w] + Words(rest), " ")
  {
    assert Words(rest) == [];
    assert [w] + Words(rest) == [w];
    if rest == [] {
      TrimEndUnique(w + [], w, []);
    } else {
      assert IsSpace(rest[0]) && DropSpaces(rest[1..]) == [];
      assert Collapse(rest) == [' '];
      TrimEndUnique(w + [' '], w, [' ']);
    }
  }

  lemma {:induction false} NormalizedWords(t: string)
    requires t == [] || !IsSpace(t[0])
    ensures TrimEnd(Collapse(t)) == Join(Words(t), " ")
    decreases |t|
  {
    if t == [] {
      TrimEndUnique([], [], []);
    } else {
      var n := WordLength(t);
      var w, rest := t[..n], t[n..];
      FirstWord(t, w, rest);
      var u := DropSpaces(rest);
      if u == [] {
        LastWord(w, rest);
      } else {
        LeadingSpaces(rest);
        NormalizedWords(u);
        NormalizedAfterWord(w, u);
        calc {
          TrimEnd(Collapse(t));
          TrimEnd(w + ([' '] + Collapse(u)));
          Join([w] + Words(u), " ");
          Join(Words(t), " ");
        }
      }
    }
  }

  lemma NormalizedIsJoinedWords(s: string)
    ensures TrimEnd(TrimStart(Collapse(s))) == Join(Words(s), " ")
  {
    CollapseLeading(s);
    var u := DropSpaces(s);
    NormalizedWords(u);
    assert DropSpaces(u) == u;
    assert Words(s) == Words(u);
  }

  /** Python's re.sub(r"\s+", " ", s).strip(). */
  function NormalizeSpace(s: string): (r: string)
    ensures SpaceNormal(r)
    ensures |r| <= |s|
    ensures NonSpace(r) == NonSpace(s)
    ensures r == Join(Words(s), " ")
  {
    NormalizedFacts(s);
    TrimEnd(TrimStart(Collapse(s)))
  }

  lemma NormalizedFacts(s: string)
    ensures var r := TrimEnd(TrimStart(Collapse(s)));
      && SpaceNormal(r) && |r| <= |s| && NonSpace(r) == NonSpace(s) && r == Join(Words(s), " ")
  {
    NormalizedCollapsed(s);
    NormalizedEnds(s);
    NormalizedNonSpace(s);
    NormalizedIsJoinedWords(s);
  }

  /** A collapsed text collapses to itself. */
  lemma {:induction false} CollapseOfCollapsed(s: string)
    requires Collapsed(s)
    ensures Collapse(s) == s
    decreases |s|
  {
    if s != [] {
      var t := s[1..];
      CollapsedSuffix(s, 1, t);
      CollapseOfCollapsed(t);
      if IsSpace(s[0]) {
        CollapsedSpaceHead(s);
      }
      assert s == [s[0]] + t;
    }
  }

  /** In a collapsed text a leading whitespace character is a lone space. */
  lemma CollapsedSpaceHead(s: string)
    requires Collapsed(s) && s != [] && IsSpace(s[0])
    ensures s[0] == ' ' && DropSpaces(s[1..]) == s[1..]
  {
    assert s[1..] != [] ==> s[1..][0] == s[1] && !IsSpace(s[1]);
  }

  /** Normalising an already normal text changes nothing. */
  lemma NormalizeSpaceIdempotent(s: string)
    requires SpaceNormal(s)
    ensures NormalizeSpace(s) == s
  {
    NormalFixpoint(s);
  }

  lemma NormalFixpoint(s: string)
    requires SpaceNormal(s)
    ensures TrimEnd(TrimStart(Collapse(s))) == s
  {
    CollapseOfCollapsed(s);
    assert s == [] + s && s == s + [];
    TrimStartUnique(s, [], s);
    TrimEndUnique(s, s, []);
  }

  // ---------------------------------------------------------------------------
  // re.sub(r"<[^>]+>", "", s)

  /** No `<` is followed by a non-empty run of non-`>` characters and then a `>`:
      the text holds no match of <[^>]+>. */
  predicate TagFree(s: string) {
    forall i :: 0 <= i < |s| && s[i] == '<' ==>
      (i + 1 < |s| && s[i + 1] == '>') || '>' !in s[i + 1..]
  }

  /** Removes, left to right, every `<` … `>` with at least one character inside. */
  function RemoveTags(s: string): (r: string)
    ensures |r| <= |s|
    ensures forall c :: c in r ==> c in s
    ensures s != [] && s[0] != '<' ==> r != [] && r[0] == s[0]
    decreases |s|
  {
    if s == [] then []
    else if s[0] == '<' && Find(s[1..], ">").Some? && Find(s[1..], ">").value >= 1 then
      var t := RemoveTags(s[Find(s[1..], ">").value + 2..]);
      assert forall c :: c in t ==> c in s by {
        forall c | c in t ensures c in s {
          assert c in s[Find(s[1..], ">").value + 2..];
        }
      }
      t
    else
      var t := RemoveTags(s[1..]);
      assert forall c :: c in t ==> c in s by {
        forall c | c in t ensures c in s { assert c in s[1..]; }
      }
      [s[0]] + t
  }

  /** Text without `<` is kept as it is, in front of whatever follows. */
  lemma {:induction false} RemoveTagsKeepsText(a: string, b: string)
    requires '<' !in a
    ensures RemoveTags(a + b) == a + RemoveTags(b)
    decreases |a|
  {
    if a == [] {
      assert a + b == b;
    } else {
      var s := a + b;
      assert a[0] in a && s[0] == a[0] != '<';
      assert s[1..] == a[1..] + b;
      assert RemoveTags(s) == [a[0]] + RemoveTags(a[1..] + b);
      assert forall c :: c in a[1..] ==> c in a;
      RemoveTagsKeepsText(a[1..], b);
      ConsSplit(a, RemoveTags(b));
    }
  }

  /** A complete tag with something inside is dropped, and removal goes on after it. */
  lemma RemoveTagsDropsTag(t: string, b: string)
    requires t != [] && '>' !in t
    ensures RemoveTags("<" + t + ">" + b) == RemoveTags(b)
  {
    var s := "<" + t + ">" + b;
    var tail := s[1..];
    assert tail == t + ">" + b;
    assert tail[|t|..|t| + 1] == ">";
    assert OccursAt(tail, |t|, ">");
    forall k | 0 <= k < |t| ensures !OccursAt(tail, k, ">") {
      assert tail[k] == t[k];
      assert t[k] in t;
    }
    assert Find(tail, ">").Some? && Find(tail, ">").value == |t|;
    assert s[|t| + 2..] == b;
  }

  /** A `<` that opens no tag, because no `>` follows or one follows at once, is kept,
      and removal goes on after it. */
  lemma RemoveTagsKeepsStrayOpen(b: string)
    requires '>' !in b || (b != [] && b[0] == '>')
    ensures RemoveTags("<" + b) == "<" + RemoveTags(b)
  {
    assert ("<" + b)[1..] == b;
    if '>' !in b {
      forall k | 0 <= k && k + 1 <= |b| ensures !OccursAt(b, k, ">") {
        assert b[k..k + 1] == [b[k]] && b[k] in b;
      }
    } else {
      assert OccursAt(b, 0, ">");
    }
  }

  lemma NoOccurrenceNoChar(s: string, c: char)
    requires forall k :: 0 <= k ==> !OccursAt(s, k, [c])
    ensures c !in s
  {
    forall k | 0 <= k < |s| ensures s[k] != c {
      assert !OccursAt(s, k, [c]);
      assert s[k..k + 1] == [s[k]];
    }
  }

  lemma {:induction false} RemoveTagsTagFree(s: string)
    ensures TagFree(RemoveTags(s))
    decreases |s|
  {
    if s == [] {
    } else if s[0] == '<' && Find(s[1..], ">").Some? && Find(s[1..], ">").value >= 1 {
      RemoveTagsTagFree(s[Find(s[1..], ">").value + 2..]);
    } else {
      var t := RemoveTags(s[1..]);
      var r := [s[0]] + t;
      RemoveTagsTagFree(s[1..]);
      assert r == RemoveTags(s);
      forall i | 0 <= i < |r| && r[i] == '<'
        ensures (i + 1 < |r| && r[i + 1] == '>') || '>' !in r[i + 1..]
      {
        if i == 0 {
          assert r[1..] == t;
          var f := Find(s[1..], ">");
          if f.None? {
            NoOccurrenceNoChar(s[1..], '>');
          } else {
            assert f.value == 0;
            assert s[1] == '>';
            assert t[0] == '>';
          }
        } else {
          assert r[i + 1..] == t[i..];
          assert t[i - 1] == '<';
        }
      }
    }
  }

  /** A text without `<` has nothing to remove. */
  lemma {:induction false} RemoveTagsPlainText(s: string)
    requires '<' !in s
    ensures RemoveTags(s) == s
  {
    if s != [] {
      assert '<' !in s[1..];
      RemoveTagsPlainText(s[1..]);
    }
  }

  lemma TagFreeSuffix(s: string, k: int)
    requires TagFree(s) && 0 <= k <= |s|
    ensures TagFree(s[k..])
  {
    var t := s[k..];
    forall i | 0 <= i < |t| && t[i] == '<'
      ensures (i + 1 < |t| && t[i + 1] == '>') || '>' !in t[i + 1..]
    {
      assert s[k + i] == '<';
      assert t[i + 1..] == s[k + i + 1..];
    }
  }

  /** One character in front of a tag-free text keeps it tag-free, unless it is a `<`
      that a later `>` closes. */
  lemma TagFreeCons(c: char, t: string)
    requires TagFree(t)
    requires c == '<' ==> (t != [] && t[0] == '>') || '>' !in t
    ensures TagFree([c] + t)
  {
    var r := [c] + t;
    forall i | 0 <= i < |r| && r[i] == '<'
      ensures (i + 1 < |r| && r[i + 1] == '>') || '>' !in r[i + 1..]
    {
      assert r[i + 1..] == t[i..];
      if i > 0 {
        assert t[i - 1] == '<';
      }
    }
  }

  lemma {:induction false} CollapseTagFree(s: string)
    requires TagFree(s)
    ensures TagFree(Collapse(s))
    decreases |s|
  {
    if s == [] {
    } else if IsSpace(s[0]) {
      var rest := DropSpaces(s[1..]);
      TagFreeSuffix(s, |s| - |rest|);
      CollapseTagFree(rest);
      TagFreeCons(' ', Collapse(rest));
    } else {
      TagFreeSuffix(s, 1);
      CollapseTagFree(s[1..]);
      if s[0] == '<' && !(1 < |s| && s[1] == '>') {
        assert '>' !in s[1..];
        CollapseChars(s[1..], '>');
      }
      TagFreeCons(s[0], Collapse(s[1..]));
    }
  }

  lemma TagFreeSlice(s: string, i: int, j: int)
    requires TagFree(s) && 0 <= i <= j <= |s|
    requires forall k :: j <= k < |s| ==> IsSpace(s[k])
    ensures TagFree(s[i..j])
  {
    var t := s[i..j];
    forall x | 0 <= x < |t| && t[x] == '<'
      ensures (x + 1 < |t| && t[x + 1] == '>') || '>' !in t[x + 1..]
    {
      assert s[i + x] == '<';
      if i + x + 1 < |s| && s[i + x + 1] == '>' {
        assert !IsSpace(s[i + x + 1]);
      } else {
        var u, v := t[x + 1..], s[i + x + 1..];
        assert '>' !in v;
        forall k | 0 <= k < |u| ensures u[k] != '>' {
          assert u[k] == v[k];
        }
      }
    }
  }

  lemma NormalizeSpaceTagFree(t: string)
    requires TagFree(t)
    ensures TagFree(NormalizeSpace(t))
  {
    CollapseTagFree(t);
    TagFreeStrip(Collapse(t));
  }

  lemma TagFreeStrip(c: string)
    requires TagFree(c)
    ensures TagFree(TrimEnd(TrimStart(c)))
  {
    var a := TrimStart(c);
    TagFreeSlice(c, |c| - |a|, |c|);
    assert c[|c| - |a|..|c|] == a;
    TagFreeSlice(a, 0, |TrimEnd(a)|);
    assert a[0..|TrimEnd(a)|] == TrimEnd(a);
  }

  /** Python's strip_tags: tags removed, whitespace runs collapsed, ends stripped. */
  function StripTags(s: string): (r: string)
    ensures SpaceNormal(r) && TagFree(r)
    ensures |r| <= |s|
    ensures NonSpace(r) == NonSpace(RemoveTags(s))
    ensures r == Join(Words(RemoveTags(s)), " ")
  {
    RemoveTagsTagFree(s);
    NormalizeSpaceTagFree(RemoveTags(s));
    NormalizeSpace(RemoveTags(s))
  }
}
