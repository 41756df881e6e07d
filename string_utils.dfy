/**
 * The string helpers of src/utils/string_utils.cc. Character classes are
 * those of the C locale, and a `char` stands for one byte of the string.
 */
module StringUtils {
  import opened Wrappers

  /* ---------------------------------------------------------------- Split */

  /**
   * The pieces of `s` between delimiters, empty ones included: the text before
   * the first delimiter, between each pair, and after the last one.
   */
  function Pieces(s: string, delimiter: char): (ps: seq<string>)
    ensures |ps| >= 1
  {
    if s == [] then [""]
    else
      var init := Pieces(s[..|s| - 1], delimiter);
      var c := s[|s| - 1];
      if c == delimiter then init + [""]
      else init[..|init| - 1] + [init[|init| - 1] + [c]]
  }

  /** What Split returns: nothing for the empty input, the pieces otherwise. */
  function SplitSpec(s: string, delimiter: char): seq<string> {
    if s == [] then [] else Pieces(s, delimiter)
  }

  /** Split (string_utils.cc:11-35). */
  method Split(input: string, delimiter: char) returns (result: seq<string>)
    ensures result == SplitSpec(input, delimiter)
  {
    result := [];
    if input == [] {
      return;
    }
    var current := "";
    for i := 0 to |input|
      invariant result + [current] == Pieces(input[..i], delimiter)
    {
      assert input[..i + 1][..i] == input[..i];
      if input[i] == delimiter {
        result := result + [current];
        current := "";
      } else {
        current := current + [input[i]];
      }
    }
    assert input[..|input|] == input;
    result := result + [current];
  }

  /** There is one piece more than there are delimiters. */
  lemma {:induction false} PiecesCount(s: string, delimiter: char)
    ensures |Pieces(s, delimiter)| == multiset(s)[delimiter] + 1
  {
    if s != [] {
      PiecesCount(s[..|s| - 1], delimiter);
      assert s == s[..|s| - 1] + [s[|s| - 1]];
    }
  }

  /** No piece contains the delimiter. */
  lemma {:induction false} PiecesAvoidDelimiter(s: string, delimiter: char)
    ensures forall p :: p in Pieces(s, delimiter) ==> delimiter !in p
  {
    if s != [] {
      PiecesAvoidDelimiter(s[..|s| - 1], delimiter);
    }
  }

  /** Split yields (number of delimiters + 1) pieces of a non-empty input, none holding the delimiter. */
  lemma SplitShape(s: string, delimiter: char)
    ensures s == [] ==> SplitSpec(s, delimiter) == []
    ensures s != [] ==> |SplitSpec(s, delimiter)| == multiset(s)[delimiter] + 1
    ensures forall p :: p in SplitSpec(s, delimiter) ==> delimiter !in p
  {
    PiecesCount(s, delimiter);
    PiecesAvoidDelimiter(s, delimiter);
  }

  /* ----------------------------------------------------------------- Join */

  /** The strings with exactly one delimiter between neighbours, none leading or trailing. */
  function JoinSpec(strings: seq<string>, delimiter: string): string {
    if strings == [] then ""
    else if |strings| == 1 then strings[0]
    else JoinSpec(strings[..|strings| - 1], delimiter) + delimiter + strings[|strings| - 1]
  }

  /** Join (string_utils.cc:37-50). */
  method Join(strings: seq<string>, delimiter: string) returns (result: string)
    ensures result == JoinSpec(strings, delimiter)
  {
    result := "";
    var first := true;
    for i := 0 to |strings|
      invariant first <==> i == 0
      invariant result == JoinSpec(strings[..i], delimiter)
    {
      assert strings[..i + 1][..i] == strings[..i];
      if !first {
        result := result + delimiter;
      }
      result := result + strings[i];
      first := false;
    }
    assert strings[..|strings|] == strings;
  }

  /** Total length of a list of strings. */
  function TotalLength(strings: seq<string>): nat {
    if strings == [] then 0 else TotalLength(strings[..|strings| - 1]) + |strings[|strings| - 1]|
  }

  /** The joined text holds every piece and one delimiter per gap, nothing more. */
  lemma {:induction false} JoinLength(strings: seq<string>, delimiter: string)
    requires strings != []
    ensures |JoinSpec(strings, delimiter)| == TotalLength(strings) + (|strings| - 1) * |delimiter|
  {
    if |strings| > 1 {
      JoinLength(strings[..|strings| - 1], delimiter);
    } else {
      assert strings[..0] == [];
    }
  }

  /** One more character: a delimiter opens a new piece, anything else extends the last one. */
  lemma PiecesSnoc(x: string, c: char, delimiter: char)
    ensures var px := Pieces(x, delimiter);
      Pieces(x + [c], delimiter)
        == if c == delimiter then px + [""] else px[..|px| - 1] + [px[|px| - 1] + [c]]
  {
    assert (x + [c])[..|x|] == x;
  }

  /** A character other than the delimiter extends the last piece. */
  lemma PiecesExtend(x: string, c: char, delimiter: char, front: seq<string>, last: string)
    requires c != delimiter && Pieces(x, delimiter) == front + [last]
    ensures Pieces(x + [c], delimiter) == front + [last + [c]]
  {
    PiecesSnoc(x, c, delimiter);
    assert (front + [last])[..|front|] == front;
  }

  /** Appending delimiter-free text extends the last piece. */
  lemma {:induction false} PiecesAppend(a: string, b: string, delimiter: char, front: seq<string>, last: string)
    requires delimiter !in b && Pieces(a, delimiter) == front + [last]
    ensures Pieces(a + b, delimiter) == front + [last + b]
  {
    if b == [] {
      assert a + b == a;
      assert last + b == last;
    } else {
      var b' := b[..|b| - 1];
      var c := b[|b| - 1];
      assert c in b;
      PiecesAppend(a, b', delimiter, front, last);
      PiecesExtend(a + b', c, delimiter, front, last + b');
      AppendLast(a, b);
      AppendLast(last, b);
    }
  }

  /** Appending a non-empty text is appending all but its last character, then that character. */
  lemma AppendLast(x: string, b: string)
    requires b != []
    ensures x + b == (x + b[..|b| - 1]) + [b[|b| - 1]]
  {
    assert b == b[..|b| - 1] + [b[|b| - 1]];
  }

  /** A delimiter followed by delimiter-free text adds that text as one more piece. */
  lemma PiecesAfterDelimiter(x: string, b: string, delimiter: char)
    requires delimiter !in b
    ensures Pieces(x + [delimiter] + b, delimiter) == Pieces(x, delimiter) + [b]
  {
    var px := Pieces(x, delimiter);
    PiecesSnoc(x, delimiter, delimiter);
    PiecesAppend(x + [delimiter], b, delimiter, px, "");
    assert "" + b == b;
  }

  /** Round trip: joining the pieces with the delimiter restores the text. */
  lemma {:induction false} JoinPieces(s: string, delimiter: char)
    ensures JoinSpec(Pieces(s, delimiter), [delimiter]) == s
  {
    if s != [] {
      var s' := s[..|s| - 1];
      JoinPieces(s', delimiter);
      JoinPiecesStep(s', s[|s| - 1], delimiter);
      assert s == s' + [s[|s| - 1]];
    }
  }

  /** The inductive step of JoinPieces: one more character, of either kind. */
  lemma JoinPiecesStep(s': string, c: char, delimiter: char)
    requires JoinSpec(Pieces(s', delimiter), [delimiter]) == s'
    ensures JoinSpec(Pieces(s' + [c], delimiter), [delimiter]) == s' + [c]
  {
    var init := Pieces(s', delimiter);
    PiecesSnoc(s', c, delimiter);
    if c == delimiter {
      JoinAppendEmpty(init, [delimiter]);
    } else {
      var front := init[..|init| - 1];
      JoinExtendLast(front, init[|init| - 1], c, [delimiter]);
      assert front + [init[|init| - 1]] == init;
    }
  }

  /** An empty last string adds just one delimiter. */
  lemma JoinAppendEmpty(strings: seq<string>, delimiter: string)
    requires strings != []
    ensures JoinSpec(strings + [""], delimiter) == JoinSpec(strings, delimiter) + delimiter
  {
    assert (strings + [""])[..|strings|] == strings;
  }

  /** Extending the last string extends the joined text by the same characters. */
  lemma JoinExtendLast(front: seq<string>, last: string, c: char, delimiter: string)
    ensures JoinSpec(front + [last + [c]], delimiter) == JoinSpec(front + [last], delimiter) + [c]
  {
    var xs := front + [last + [c]];
    var ys := front + [last];
    if front != [] {
      assert xs[..|xs| - 1] == front && ys[..|ys| - 1] == front;
    }
  }

  /** Join of Split restores every input, the empty one included. */
  lemma SplitJoinRoundTrip(s: string, delimiter: char)
    ensures JoinSpec(SplitSpec(s, delimiter), [delimiter]) == s
  {
    if s != [] {
      JoinPieces(s, delimiter);
    }
  }

  /** Text without the delimiter is a single piece. */
  lemma PiecesOfSingle(b: string, delimiter: char)
    requires delimiter !in b
    ensures Pieces(b, delimiter) == [b]
  {
    assert Pieces([], delimiter) == [] + [""];
    PiecesAppend([], b, delimiter, [], "");
    assert [] + b == b;
    assert "" + b == b;
  }

  lemma PiecesOfJoinStep(strings: seq<string>, delimiter: char)
    requires |strings| > 1 && delimiter !in strings[|strings| - 1]
    requires Pieces(JoinSpec(strings[..|strings| - 1], [delimiter]), delimiter) == strings[..|strings| - 1]
    ensures Pieces(JoinSpec(strings, [delimiter]), delimiter) == strings
  {
    var init := strings[..|strings| - 1];
    var last := strings[|strings| - 1];
    var joinedInit := JoinSpec(init, [delimiter]);
    calc {
      Pieces(JoinSpec(strings, [delimiter]), delimiter);
    ==  { assert JoinSpec(strings, [delimiter]) == joinedInit + [delimiter] + last; }
      Pieces(joinedInit + [delimiter] + last, delimiter);
    ==  { PiecesAfterDelimiter(joinedInit, last, delimiter); }
      init + [last];
    ==  { assert init + [last] == strings; }
      strings;
    }
  }

  /** The other way round: splitting a join of delimiter-free pieces gives them back. */
  lemma {:induction false} PiecesOfJoin(strings: seq<string>, delimiter: char)
    requires strings != []
    requires forall p :: p in strings ==> delimiter !in p
    ensures Pieces(JoinSpec(strings, [delimiter]), delimiter) == strings
  {
    var last := strings[|strings| - 1];
    assert last in strings;
    if |strings| == 1 {
      PiecesOfSingle(last, delimiter);
    } else {
      var init := strings[..|strings| - 1];
      PiecesOfJoin(init, delimiter);
      PiecesOfJoinStep(strings, delimiter);
    }
  }

  /* ----------------------------------------------------------------- Trim */

  /** std::isspace in the C locale. */
  predicate IsSpace(c: char) {
    c == ' ' || c == '\t' || c == '\n' || c == '\U{000B}' || c == '\U{000C}' || c == '\r'
  }

  /** Index of the first character that is not whitespace, |s| if there is none. */
  function StartOf(s: string): (i: nat)
    ensures i <= |s|
    ensures forall k :: 0 <= k < i ==> IsSpace(s[k])
    ensures i < |s| ==> !IsSpace(s[i])
  {
    if s != [] && IsSpace(s[0]) then 1 + StartOf(s[1..]) else 0
  }

  /** One past the last character from `start` on that is not whitespace, `start` if there is none. */
  function EndOf(s: string, start: nat): (j: nat)
    requires start <= |s|
    ensures start <= j <= |s|
    ensures forall k :: j <= k < |s| ==> IsSpace(s[k])
    ensures j > start ==> !IsSpace(s[j - 1])
  {
    if |s| > start && IsSpace(s[|s| - 1]) then EndOf(s[..|s| - 1], start) else |s|
  }

  /** The text with leading and trailing whitespace removed. */
  function Trimmed(s: string): string {
    s[StartOf(s)..EndOf(s, StartOf(s))]
  }

  /** Trim (string_utils.cc:52-64). */
  method Trim(s: string) returns (r: string)
    ensures r == Trimmed(s)
  {
    var start := 0;
    while start != |s| && IsSpace(s[start])
      invariant start <= |s|
      invariant forall k :: 0 <= k < start ==> IsSpace(s[k])
    {
      start := start + 1;
    }
    assert start == StartOf(s);
    var end := |s|;
    while start != end && IsSpace(s[end - 1])
      invariant start <= end <= |s|
      invariant forall k :: end <= k < |s| ==> IsSpace(s[k])
    {
      end := end - 1;
    }
    assert end == EndOf(s, start);
    r := s[start..end];
  }

  /**
   * Trim returns a contiguous slice of the input that neither starts nor ends
   * with whitespace; everything cut away is whitespace.
   */
  lemma TrimmedIsCore(s: string)
    ensures exists i, j :: (0 <= i <= j <= |s| && Trimmed(s) == s[i..j]
      && (forall k :: 0 <= k < i ==> IsSpace(s[k]))
      && (forall k :: j <= k < |s| ==> IsSpace(s[k])))
    ensures Trimmed(s) != [] ==> !IsSpace(Trimmed(s)[0]) && !IsSpace(Trimmed(s)[|Trimmed(s)| - 1])
  {
    var i := StartOf(s);
    var j := EndOf(s, i);
    assert Trimmed(s) == s[i..j];
  }

  /** Trim is idempotent. */
  lemma TrimIdempotent(s: string)
    ensures Trimmed(Trimmed(s)) == Trimmed(s)
  {
    var t := Trimmed(s);
    TrimmedIsCore(s);
    assert StartOf(t) == 0;
    assert EndOf(t, 0) == |t|;
  }

  /* ---------------------------------------------------------- Case mapping */

  predicate IsUpper(c: char) {
    'A' <= c <= 'Z'
  }

  predicate IsLower(c: char) {
    'a' <= c <= 'z'
  }

  /** std::tolower in the C locale: an upper-case letter becomes its lower-case letter. */
  function LowerChar(c: char): (r: char)
    ensures IsUpper(c) ==> IsLower(r) && r as int - 'a' as int == c as int - 'A' as int
    ensures !IsUpper(c) ==> r == c
  {
    if IsUpper(c) then (c as int - 'A' as int + 'a' as int) as char else c
  }

  /** std::toupper in the C locale: a lower-case letter becomes its upper-case letter. */
  function UpperChar(c: char): (r: char)
    ensures IsLower(c) ==> IsUpper(r) && r as int - 'A' as int == c as int - 'a' as int
    ensures !IsLower(c) ==> r == c
  {
    if IsLower(c) then (c as int - 'a' as int + 'A' as int) as char else c
  }

  /** ToLower (string_utils.cc:66-71): same length, only upper-case letters change. */
  function ToLower(s: string): (r: string)
    ensures |r| == |s|
    ensures forall i :: 0 <= i < |s| && !IsUpper(s[i]) ==> r[i] == s[i]
    ensures forall i :: 0 <= i < |s| && IsUpper(s[i]) ==> IsLower(r[i]) && r[i] as int - 'a' as int == s[i] as int - 'A' as int
    ensures forall i :: 0 <= i < |r| ==> !IsUpper(r[i])
  {
    seq(|s|, i requires 0 <= i < |s| => LowerChar(s[i]))
  }

  /** ToUpper (string_utils.cc:73-78): same length, only lower-case letters change. */
  function ToUpper(s: string): (r: string)
    ensures |r| == |s|
    ensures forall i :: 0 <= i < |s| && !IsLower(s[i]) ==> r[i] == s[i]
    ensures forall i :: 0 <= i < |s| && IsLower(s[i]) ==> IsUpper(r[i]) && r[i] as int - 'A' as int == s[i] as int - 'a' as int
    ensures forall i :: 0 <= i < |r| ==> !IsLower(r[i])
  {
    seq(|s|, i requires 0 <= i < |s| => UpperChar(s[i]))
  }

  /** Case mapping is idempotent, and mapping one way then the other equals mapping the other way directly. */
  lemma CaseMappingLaws(s: string)
    ensures ToLower(ToLower(s)) == ToLower(s)
    ensures ToUpper(ToUpper(s)) == ToUpper(s)
    ensures ToLower(ToUpper(s)) == ToLower(s)
    ensures ToUpper(ToLower(s)) == ToUpper(s)
  {
  }

  /* ---------------------------------------------------- Prefix and suffix */

  /** StartsWith (string_utils.cc:80-82): true iff `prefix` is a prefix of `s`. */
  function StartsWith(s: string, prefix: string): (b: bool)
    ensures b <==> prefix <= s
  {
    |s| >= |prefix| && s[..|prefix|] == prefix
  }

  /** EndsWith (string_utils.cc:84-87): true iff `suffix` is what remains after dropping some prefix of `s`. */
  function EndsWith(s: string, suffix: string): (b: bool)
    ensures b <==> exists k :: 0 <= k <= |s| && s[k..] == suffix
  {
    if |s| >= |suffix| then
      assert s[|s| - |suffix|..] == s[|s| - |suffix|..][..|suffix|];
      s[|s| - |suffix|..][..|suffix|] == suffix
    else
      assert forall k :: 0 <= k <= |s| ==> |s[k..]| < |suffix|;
      false
  }

  /** The empty prefix and suffix always match; a longer argument never does. */
  lemma EmptyAndOverlong(s: string, t: string)
    ensures StartsWith(s, "") && EndsWith(s, "")
    ensures |t| > |s| ==> !StartsWith(s, t) && !EndsWith(s, t)
  {
    assert s[|s|..] == "";
  }

  /* -------------------------------------------------------------- Replace */

  /** `pattern` occurs in `s` starting at `pos`. */
  predicate OccursAt(s: string, pattern: string, pos: nat) {
    pos + |pattern| <= |s| && s[pos..pos + |pattern|] == pattern
  }

  /** std::string::find(pattern, from): the first occurrence at or after `from`. */
  function FindFrom(s: string, pattern: string, from: nat): (r: Option<nat>)
    ensures r.Some? ==> from <= r.value && OccursAt(s, pattern, r.value)
    ensures r.Some? ==> forall j :: from <= j < r.value ==> !OccursAt(s, pattern, j)
    ensures r.None? ==> forall j :: from <= j ==> !OccursAt(s, pattern, j)
    decreases |s| - from
  {
    if from + |pattern| > |s| then None
    else if s[from..from + |pattern|] == pattern then Some(from)
    else FindFrom(s, pattern, from + 1)
  }

  /**
   * Every occurrence replaced, scanning left to right and resuming after each
   * replaced occurrence, so that inserted text is never scanned again.
   */
  function ReplaceAllSpec(s: string, from: string, to: string): string
    requires from != []
  {
    if s == [] then []
    else if OccursAt(s, from, 0) then to + ReplaceAllSpec(s[|from|..], from, to)
    else [s[0]] + ReplaceAllSpec(s[1..], from, to)
  }

  /** Where `from` first occurs at `off`, everything before it is kept and the rest is processed after it. */
  lemma {:induction false} ReplaceAllSkip(t: string, from: string, to: string, off: nat)
    requires from != [] && OccursAt(t, from, off)
    requires forall j :: 0 <= j < off ==> !OccursAt(t, from, j)
    ensures ReplaceAllSpec(t, from, to) == t[..off] + to + ReplaceAllSpec(t[off + |from|..], from, to)
  {
    if off > 0 {
      assert !OccursAt(t, from, 0);
      var u := t[1..];
      OccurrencesInTail(t, from, off);
      ReplaceAllSkip(u, from, to, off - 1);
      assert u[off - 1 + |from|..] == t[off + |from|..];
      assert [t[0]] + u[..off - 1] == t[..off];
    }
  }

  /** Dropping the first character shifts every occurrence one place to the left. */
  lemma OccurrencesInTail(t: string, from: string, off: nat)
    requires 0 < off && OccursAt(t, from, off)
    requires forall j :: 0 <= j < off ==> !OccursAt(t, from, j)
    ensures OccursAt(t[1..], from, off - 1)
    ensures forall j :: 0 <= j < off - 1 ==> !OccursAt(t[1..], from, j)
  {
    forall j | 0 <= j < off - 1
      ensures !OccursAt(t[1..], from, j)
    {
      assert !OccursAt(t, from, j + 1);
      assert t[1..][j..j + |from|] == t[j + 1..j + 1 + |from|];
    }
    assert t[1..][off - 1..off - 1 + |from|] == t[off..off + |from|];
  }

  /** Text without an occurrence is left as it is. */
  lemma {:induction false} ReplaceAllNone(t: string, from: string, to: string)
    requires from != []
    requires forall j :: 0 <= j ==> !OccursAt(t, from, j)
    ensures ReplaceAllSpec(t, from, to) == t
  {
    if t != [] {
      assert !OccursAt(t, from, 0);
      forall j | 0 <= j
        ensures !OccursAt(t[1..], from, j)
      {
        assert !OccursAt(t, from, j + 1);
        if j + |from| <= |t[1..]| {
          assert t[1..][j..j + |from|] == t[j + 1..j + 1 + |from|];
        }
      }
      ReplaceAllNone(t[1..], from, to);
    }
  }

  /** An occurrence in a suffix of `s` is an occurrence in `s`, shifted. */
  lemma OccursInSuffix(s: string, pos: nat, from: string, j: nat)
    requires pos <= |s|
    ensures OccursAt(s[pos..], from, j) <==> OccursAt(s, from, pos + j)
  {
    if pos + j + |from| <= |s| {
      assert s[pos..][j..j + |from|] == s[pos + j..pos + j + |from|];
    }
  }

  /** `s` with `from` replaced by `to` at its first occurrence, or `s` if it has none. */
  ghost predicate ReplacedFirst(s: string, from: string, to: string, r: string) {
    if exists p: nat :: OccursAt(s, from, p) then
      exists p: nat :: OccursAt(s, from, p) && (forall j :: 0 <= j < p ==> !OccursAt(s, from, j))
        && r == s[..p] + to + s[p + |from|..]
    else
      r == s
  }

  /**
   * Replace (string_utils.cc:89-110; the default of replaceAll is the one at
   * string_utils.h:79): an empty `from` changes nothing; otherwise the first
   * occurrence, or with replaceAll every occurrence, becomes `to`.
   */
  method Replace(s: string, from: string, to: string, replaceAll: bool := false) returns (result: string)
    ensures from == [] ==> result == s
    ensures from != [] && replaceAll ==> result == ReplaceAllSpec(s, from, to)
    ensures from != [] && !replaceAll ==> ReplacedFirst(s, from, to, result)
  {
    if from == [] {
      return s;
    }
    result := s;
    if replaceAll {
      var pos: nat := 0;
      ghost var i: nat := 0;
      var found := FindFrom(result, from, pos);
      while found.Some?
        invariant pos <= |result| && i <= |s|
        invariant result[pos..] == s[i..]
        invariant ReplaceAllSpec(s, from, to) == result[..pos] + ReplaceAllSpec(s[i..], from, to)
        invariant found == FindFrom(result, from, pos)
        decreases |result| - pos
      {
        var p := found.value;
        ReplaceStep(s, i, result, pos, p, from, to);
        i := i + (p - pos) + |from|;
        result := result[..p] + to + result[p + |from|..];
        pos := p + |to|;
        found := FindFrom(result, from, pos);
      }
      ReplaceDone(s, i, result, pos, from, to);
    } else {
      var found := FindFrom(result, from, 0);
      if found.Some? {
        var p := found.value;
        result := result[..p] + to + result[p + |from|..];
      }
    }
  }

  /** One replacement of the loop in Replace keeps its correspondence with ReplaceAllSpec. */
  lemma ReplaceStep(s: string, i: nat, result: string, pos: nat, p: nat, from: string, to: string)
    requires from != [] && pos <= |result| && i <= |s| && result[pos..] == s[i..]
    requires pos <= p && OccursAt(result, from, p)
    requires forall j :: pos <= j < p ==> !OccursAt(result, from, j)
    ensures var i' := i + (p - pos) + |from|;
      var result' := result[..p] + to + result[p + |from|..];
      && i' <= |s| && p + |to| <= |result'|
      && result'[p + |to|..] == s[i'..]
      && result[..pos] + ReplaceAllSpec(s[i..], from, to) == result'[..p + |to|] + ReplaceAllSpec(s[i'..], from, to)
  {
    var off := p - pos;
    var t := s[i..];
    OccursInSuffix(result, pos, from, off);
    forall j | 0 <= j < off
      ensures !OccursAt(t, from, j)
    {
      OccursInSuffix(result, pos, from, j);
    }
    ReplaceAllSkip(t, from, to, off);
    assert t[off + |from|..] == s[i + off + |from|..];
    assert t[..off] == result[pos..p];
    var result' := result[..p] + to + result[p + |from|..];
    assert result'[..p + |to|] == result[..pos] + result[pos..p] + to;
    assert result'[p + |to|..] == result[p + |from|..];
  }

  /** When no occurrence is left, the loop in Replace has produced ReplaceAllSpec. */
  lemma ReplaceDone(s: string, i: nat, result: string, pos: nat, from: string, to: string)
    requires from != [] && pos <= |result| && i <= |s| && result[pos..] == s[i..]
    requires ReplaceAllSpec(s, from, to) == result[..pos] + ReplaceAllSpec(s[i..], from, to)
    requires forall j :: pos <= j ==> !OccursAt(result, from, j)
    ensures result == ReplaceAllSpec(s, from, to)
  {
    forall j | 0 <= j
      ensures !OccursAt(s[i..], from, j)
    {
      OccursInSuffix(result, pos, from, j);
    }
    ReplaceAllNone(s[i..], from, to);
    assert result == result[..pos] + result[pos..];
  }

  /** Replacing a text by itself changes nothing. */
  lemma {:induction false} ReplaceAllIdentity(s: string, from: string)
    requires from != []
    ensures ReplaceAllSpec(s, from, from) == s
    decreases |s|
  {
    if s != [] {
      if OccursAt(s, from, 0) {
        ReplaceAllIdentity(s[|from|..], from);
        assert s == s[..|from|] + s[|from|..];
      } else {
        ReplaceAllIdentity(s[1..], from);
        assert s == [s[0]] + s[1..];
      }
    }
  }

  /* ---------------------------------------------------------------- ToInt */

  predicate IsDigit(c: char) {
    '0' <= c <= '9'
  }

  predicate IsSign(c: char) {
    c == '+' || c == '-'
  }

  /** The characters ToInt lets through to std::stoi (string_utils.cc:123-127). */
  predicate IntChar(c: char) {
    IsSign(c) || IsDigit(c)
  }

  /** Range of the source's 32-bit int. */
  const IntMin: int := -0x8000_0000
  const IntMax: int := 0x7FFF_FFFF

  /** Number of leading decimal digits. */
  function LeadingDigits(t: string): (n: nat)
    ensures n <= |t|
    ensures forall k :: 0 <= k < n ==> IsDigit(t[k])
    ensures n < |t| ==> !IsDigit(t[n])
  {
    if t != [] && IsDigit(t[0]) then 1 + LeadingDigits(t[1..]) else 0
  }

  function DigitValue(c: char): nat
    requires IsDigit(c)
  {
    c as int - '0' as int
  }

  /** The value of a run of decimal digits. */
  function DigitsValue(ds: string): nat
    requires forall k :: 0 <= k < |ds| ==> IsDigit(ds[k])
  {
    if ds == [] then 0 else 10 * DigitsValue(ds[..|ds| - 1]) + DigitValue(ds[|ds| - 1])
  }

  /** t begins with a digit, possibly after one sign: the shape std::stoi needs. */
  predicate StartsNumeral(t: string) {
    t != [] && (IsDigit(t[0]) || (IsSign(t[0]) && |t| > 1 && IsDigit(t[1])))
  }

  /**
   * std::stoi on text without leading whitespace: an optional sign, then the
   * longest run of digits; no digits, or a value outside int, is an error.
   * A value is found only for text that starts as a numeral, it is within
   * int, and it is negative only after a '-'.
   */
  function Stoi(t: string): (r: Option<int>)
    ensures r.Some? ==> StartsNumeral(t)
    ensures r.Some? ==> IntMin <= r.value <= IntMax
    ensures r.Some? && r.value < 0 ==> t[0] == '-'
  {
    var signed := t != [] && IsSign(t[0]);
    var body := if signed then t[1..] else t;
    var n := LeadingDigits(body);
    if n == 0 then None
    else
      var magnitude := DigitsValue(body[..n]);
      var v := if signed && t[0] == '-' then -(magnitude as int) else magnitude as int;
      if IntMin <= v <= IntMax then Some(v) else None
  }

  /** What ToInt computes from its input. */
  function ToIntSpec(s: string): Option<int> {
    var t := Trimmed(s);
    if t == [] || exists k :: 0 <= k < |t| && !IntChar(t[k]) then None else Stoi(t)
  }

  /** ToInt (string_utils.cc:112-135). */
  method ToInt(s: string) returns (r: Option<int>)
    ensures r == ToIntSpec(s)
  {
    if s == [] {
      return None;
    }
    var trimmed := Trim(s);
    if trimmed == [] {
      return None;
    }
    for i := 0 to |trimmed|
      invariant forall k :: 0 <= k < i ==> IntChar(trimmed[k])
    {
      if !IntChar(trimmed[i]) {
        return None;
      }
    }
    r := Stoi(trimmed);
  }

  /** ToInt's error cases: empty or blank input, or a character other than a digit or a sign. */
  lemma ToIntRejects(s: string)
    ensures Trimmed(s) == [] ==> ToIntSpec(s) == None
    ensures (exists k :: 0 <= k < |Trimmed(s)| && !IntChar(Trimmed(s)[k])) ==> ToIntSpec(s) == None
    ensures s == [] ==> ToIntSpec(s) == None
  {
  }

  /** A decimal numeral: an optional sign followed by one or more digits and nothing else. */
  predicate IsNumeral(t: string) {
    var body := NumeralBody(t);
    body != [] && forall k :: 0 <= k < |body| ==> IsDigit(body[k])
  }

  /** The text after an optional leading sign. */
  function NumeralBody(t: string): string {
    if t != [] && IsSign(t[0]) then t[1..] else t
  }

  /** The value a numeral denotes. */
  function NumeralValue(t: string): int
    requires IsNumeral(t)
  {
    var magnitude := DigitsValue(NumeralBody(t));
    if t[0] == '-' then -(magnitude as int) else magnitude as int
  }

  /** ToInt as evidently intended: only a whole numeral within int is accepted. */
  function StrictToInt(s: string): (r: Option<int>)
    ensures r.Some? <==> IsNumeral(Trimmed(s)) && IntMin <= NumeralValue(Trimmed(s)) <= IntMax
    ensures r.Some? ==> r.value == NumeralValue(Trimmed(s))
  {
    var t := Trimmed(s);
    if IsNumeral(t) && IntMin <= NumeralValue(t) <= IntMax then Some(NumeralValue(t)) else None
  }

  /** On a whole numeral, ToInt and the strict reading agree. */
  lemma StrictAgreesOnNumerals(s: string)
    requires IsNumeral(Trimmed(s))
    ensures ToIntSpec(s) == StrictToInt(s)
  {
    var t := Trimmed(s);
    var body := if IsSign(t[0]) then t[1..] else t;
    assert LeadingDigits(body) == |body|;
    assert body[..|body|] == body;
    assert forall k :: 0 <= k < |t| ==> IntChar(t[k]) by {
      forall k | 0 <= k < |t|
        ensures IntChar(t[k])
      {
        if IsSign(t[0]) && k > 0 {
          assert t[k] == body[k - 1];
        }
      }
    }
  }

  /** A trailing sign is accepted: "12-3" converts to 12, where the strict reading rejects it. */
  lemma ToIntAcceptsTrailingSign()
    ensures ToIntSpec("12-3") == Some(12)
    ensures StrictToInt("12-3") == None
  {
    var s := "12-3";
    assert StartOf(s) == 0;
    assert EndOf(s, 0) == 4;
    assert Trimmed(s) == s;
    assert LeadingDigits(s) == 2;
    assert s[..2] == "12";
    assert DigitsValue("12") == 12 by {
      assert "12"[..1] == "1";
      assert "1"[..0] == "";
    }
    assert !IsDigit(s[2]);
  }

  /* ------------------------------------------------------------- ToDouble */

  predicate IsExponent(c: char) {
    c == 'e' || c == 'E'
  }

  /**
   * The test the loop of ToDouble (string_utils.cc:152-173) makes on t[i]: a
   * digit; a first '.'; a first exponent letter after some digit; or a sign at
   * the start or right after an exponent letter.
   */
  ghost predicate DoubleCharOk(t: string, i: nat)
    requires i < |t|
  {
    || IsDigit(t[i])
    || (t[i] == '.' && forall k :: 0 <= k < i ==> t[k] != '.')
    || (IsExponent(t[i]) && (forall k :: 0 <= k < i ==> !IsExponent(t[k])) && exists k :: 0 <= k < i && IsDigit(t[k]))
    || (IsSign(t[i]) && (i == 0 || IsExponent(t[i - 1])))
  }

  /** What the validator of ToDouble accepts: every character passes its test and some digit occurs. */
  ghost predicate DoubleShape(t: string) {
    (forall i :: 0 <= i < |t| ==> DoubleCharOk(t, i)) && exists i :: 0 <= i < |t| && IsDigit(t[i])
  }

  /**
   * ToDouble (string_utils.cc:137-185) up to the conversion: none for empty
   * or blank input or text the validator rejects; otherwise the trimmed text
   * that is handed to std::stod.
   */
  method ToDouble(s: string) returns (r: Option<string>)
    ensures r.Some? <==> Trimmed(s) != [] && DoubleShape(Trimmed(s))
    ensures r.Some? ==> r.value == Trimmed(s)
  {
    if s == [] {
      return None;
    }
    var trimmed := Trim(s);
    if trimmed == [] {
      return None;
    }
    var hasDigit, hasDot, hasExp := false, false, false;
    for i := 0 to |trimmed|
      invariant forall k :: 0 <= k < i ==> DoubleCharOk(trimmed, k)
      invariant hasDigit <==> exists k :: 0 <= k < i && IsDigit(trimmed[k])
      invariant hasDot <==> exists k :: 0 <= k < i && trimmed[k] == '.'
      invariant hasExp <==> exists k :: 0 <= k < i && IsExponent(trimmed[k])
    {
      var c := trimmed[i];
      if IsDigit(c) {
        hasDigit := true;
      } else if c == '.' {
        if hasDot {
          ghost var k :| 0 <= k < i && trimmed[k] == '.';
          assert !DoubleCharOk(trimmed, i);
          return None;
        }
        hasDot := true;
      } else if IsExponent(c) {
        if hasExp || !hasDigit {
          if hasExp {
            ghost var k :| 0 <= k < i && IsExponent(trimmed[k]);
          }
          assert !DoubleCharOk(trimmed, i);
          return None;
        }
        hasExp := true;
      } else if IsSign(c) && (i == 0 || IsExponent(trimmed[i - 1])) {
      } else {
        assert !DoubleCharOk(trimmed, i);
        return None;
      }
    }
    if !hasDigit {
      return None;
    }
    r := Some(trimmed);
  }
}
