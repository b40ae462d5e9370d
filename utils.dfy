/** String and set helpers of nk_ape/utils.py: splitting, joining, character
    replacement, the text normaliser, the vocabulary test, the dropped-set
    helper and the path-to-name helper. */
module Utils {

  /** A value that is either a single string or an already split list of
      words; Python passes both to `in_vocab` and returns either from
      `normalize_text`. */
  datatype Tokens = Text(text: string) | Words(words: seq<string>)

  /** Index of the first occurrence of `c` in `s`. */
  function IndexOf(s: string, c: char): (k: nat)
    requires c in s
    ensures k < |s| && s[k] == c && c !in s[..k]
  {
    if s[0] == c then 0
    else
      var k := 1 + IndexOf(s[1..], c);
      assert s[..k] == [s[0]] + s[1..][..k - 1];
      k
  }

  /** The first occurrence of `c` in `a + b` is just past `a` when `a` lacks
      `c` and `b` starts with it. */
  lemma IndexOfPast(a: string, b: string, c: char)
    requires c !in a && |b| > 0 && b[0] == c
    ensures c in a + b && IndexOf(a + b, c) == |a|
  {
    var s := a + b;
    assert s[|a|] == c;
    assert forall j :: 0 <= j < |a| ==> s[j] == a[j];
    assert forall j :: |a| < j <= |s| ==> s[..j][|a|] == c;
  }

  /** Python's `s.split(sep)` for a one-character separator: the pieces
      between separators, empty pieces included, so never an empty list. */
  function Split(s: string, sep: char): (parts: seq<string>)
    ensures |parts| >= 1
    ensures forall i :: 0 <= i < |parts| ==> sep !in parts[i]
    decreases |s|
  {
    if sep !in s then [s]
    else
      var k := IndexOf(s, sep);
      [s[..k]] + Split(s[k + 1..], sep)
  }

  /** A character missing from the string is missing from every piece of
      its split. */
  lemma {:induction false} SplitAvoids(s: string, sep: char, c: char)
    requires c !in s
    ensures forall i :: 0 <= i < |Split(s, sep)| ==> c !in Split(s, sep)[i]
    decreases |s|
  {
    if sep in s {
      var k := IndexOf(s, sep);
      assert forall j :: 0 <= j < k ==> s[..k][j] == s[j];
      assert forall j :: k + 1 <= j < |s| ==> s[k + 1..][j - k - 1] == s[j];
      SplitAvoids(s[k + 1..], sep, c);
    }
  }

  /** Python's `sep.join(parts)`. */
  function Join(parts: seq<string>, sep: char): (r: string)
    ensures parts != [] ==> parts[0] <= r
    ensures |parts| >= 2 ==> |r| > |parts[0]| && r[|parts[0]|] == sep
  {
    if parts == [] then ""
    else if |parts| == 1 then parts[0]
    else parts[0] + [sep] + Join(parts[1..], sep)
  }

  /** Joining the pieces of a split with the same separator gives the
      original string back. */
  lemma {:induction false} SplitThenJoin(s: string, sep: char)
    ensures Join(Split(s, sep), sep) == s
    decreases |s|
  {
    if sep in s {
      var k := IndexOf(s, sep);
      var rest := Split(s[k + 1..], sep);
      SplitThenJoin(s[k + 1..], sep);
      var parts := [s[..k]] + rest;
      assert Split(s, sep) == parts;
      assert |parts| > 1 && parts[0] == s[..k] && parts[1..] == rest;
      assert Join(parts, sep) == s[..k] + [sep] + s[k + 1..];
      assert s == s[..k] + [sep] + s[k + 1..];
    }
  }

  /** Splitting a join of separator-free pieces gives the pieces back. */
  lemma {:induction false} JoinThenSplit(parts: seq<string>, sep: char)
    requires |parts| >= 1
    requires forall i :: 0 <= i < |parts| ==> sep !in parts[i]
    ensures Split(Join(parts, sep), sep) == parts
  {
    if |parts| > 1 {
      var rest := Join(parts[1..], sep);
      var s := Join(parts, sep);
      assert s == parts[0] + ([sep] + rest);
      IndexOfPast(parts[0], [sep] + rest, sep);
      assert s[..|parts[0]|] == parts[0];
      assert s[|parts[0]| + 1..] == rest;
      JoinThenSplit(parts[1..], sep);
      assert Split(s, sep) == [parts[0]] + parts[1..];
    }
  }

  /** Python's `s.replace(pattern, replacement)`: every non-overlapping
      occurrence, scanning left to right, is replaced; an empty pattern
      matches at every position, before the first character and after the
      last. */
  function Replace(s: string, pattern: string, replacement: string): (r: string)
    ensures forall c :: c in r ==> c in s || c in replacement
    ensures |pattern| == 1 && pattern[0] !in replacement ==> pattern[0] !in r
    decreases |s|
  {
    if pattern == [] then
      replacement + (if s == [] then [] else [s[0]] + Replace(s[1..], pattern, replacement))
    else if |s| < |pattern| then s
    else if s[..|pattern|] == pattern then replacement + Replace(s[|pattern|..], pattern, replacement)
    else [s[0]] + Replace(s[1..], pattern, replacement)
  }

  /** With a one-character pattern, replacing works character by character:
      it distributes over concatenation. */
  lemma {:induction false} ReplaceCharConcat(x: string, y: string, c: char, replacement: string)
    ensures Replace(x + y, [c], replacement) == Replace(x, [c], replacement) + Replace(y, [c], replacement)
    decreases |x|
  {
    if x != [] {
      assert (x + y)[..1] == [x[0]] && x[..1] == [x[0]];
      assert (x + y)[1..] == x[1..] + y;
      ReplaceCharConcat(x[1..], y, c, replacement);
    } else {
      assert x + y == y;
    }
  }

  /** A single character is replaced when it is the pattern and kept
      otherwise. */
  lemma ReplaceCharSingle(d: char, c: char, replacement: string)
    ensures Replace([d], [c], replacement) == if d == c then replacement else [d]
  {
    assert [d][..1] == [d];
    assert Replace([d][1..], [c], replacement) == [];
  }

  /** Replacing a pattern by itself changes nothing. */
  lemma {:induction false} ReplaceBySelf(s: string, pattern: string)
    requires pattern != []
    ensures Replace(s, pattern, pattern) == s
    decreases |s|
  {
    if |s| >= |pattern| {
      if s[..|pattern|] == pattern {
        ReplaceBySelf(s[|pattern|..], pattern);
        assert s == s[..|pattern|] + s[|pattern|..];
      } else {
        ReplaceBySelf(s[1..], pattern);
        assert s == [s[0]] + s[1..];
      }
    }
  }

  /** The replacements of a dictionary applied one after the other, in the
      dictionary's order (the loop of `normalize_text`). */
  function ReplaceEach(s: string, replacements: seq<(string, string)>): (r: string)
    ensures forall c :: c in r ==> c in s || exists i :: 0 <= i < |replacements| && c in replacements[i].1
    decreases |replacements|
  {
    if replacements == [] then s
    else
      var init := replacements[..|replacements| - 1];
      var last := replacements[|replacements| - 1];
      assert forall i :: 0 <= i < |init| ==> init[i] == replacements[i];
      Replace(ReplaceEach(s, init), last.0, last.1)
  }

  /** Every key is a single character. */
  predicate SingleCharKeys(replacements: seq<(string, string)>)
  {
    forall i :: 0 <= i < |replacements| ==> |replacements[i].0| == 1
  }

  /** No replacement value contains any key character. */
  predicate ValuesAvoidKeys(replacements: seq<(string, string)>)
    requires SingleCharKeys(replacements)
  {
    forall i, j :: 0 <= i < |replacements| && 0 <= j < |replacements| ==>
      replacements[i].0[0] !in replacements[j].1
  }

  /** With single-character keys and values that avoid every key, none of
      the key characters survives the replacements. */
  lemma {:induction false} ReplaceEachRemovesKeys(s: string, replacements: seq<(string, string)>)
    requires SingleCharKeys(replacements) && ValuesAvoidKeys(replacements)
    ensures forall i :: 0 <= i < |replacements| ==> replacements[i].0[0] !in ReplaceEach(s, replacements)
    decreases |replacements|
  {
    if replacements != [] {
      var n := |replacements| - 1;
      var front := replacements[..n];
      assert SingleCharKeys(front);
      assert ValuesAvoidKeys(front);
      ReplaceEachRemovesKeys(s, front);
      var mid := ReplaceEach(s, front);
      var last := replacements[n];
      assert ReplaceEach(s, replacements) == Replace(mid, last.0, last.1);
      forall i | 0 <= i < |replacements|
        ensures replacements[i].0[0] !in ReplaceEach(s, replacements)
      {
        if i < n {
          assert front[i] == replacements[i];
          assert replacements[i].0[0] !in mid;
          assert replacements[i].0[0] !in last.1;
        }
      }
    }
  }

  /** The default replacement map of `normalize_text`: dashes and
      underscores become spaces, brackets and punctuation disappear. */
  const DefaultReplacements: seq<(string, string)> :=
    [("_", " "), ("-", " "), ("(", ""), (")", ""), (".", ""), (",", ""), ("!", ""), ("?", "")]

  /** The characters the default map removes. */
  const StrippedChars: string := "_-().,!?"

  /** After the default replacements none of `_ - ( ) . , ! ?` is left. */
  lemma DefaultReplacementsStrip(s: string)
    ensures forall c :: c in StrippedChars ==> c !in ReplaceEach(s, DefaultReplacements)
  {
    var d := DefaultReplacements;
    assert SingleCharKeys(d);
    assert ValuesAvoidKeys(d);
    ReplaceEachRemovesKeys(s, d);
    assert forall j :: 0 <= j < |StrippedChars| ==> d[j].0[0] == StrippedChars[j];
    forall c | c in StrippedChars
      ensures c !in ReplaceEach(s, d)
    {
      var j :| 0 <= j < |StrippedChars| && StrippedChars[j] == c;
      assert d[j].0[0] == c;
    }
  }

  /** `normalize_text(text, to_list, replace_chars)` with `underscore`
      (inflection's snake-case conversion) given as a parameter: the
      replacements are applied in order to `underscore(text)`, then the
      result is split on single spaces or returned whole. */
  method NormalizeText(text: string, toList: bool, replaceChars: seq<(string, string)>,
                       underscore: string -> string)
    returns (r: Tokens)
    ensures toList ==> r.Words? && r.words == Split(ReplaceEach(underscore(text), replaceChars), ' ')
    ensures toList ==> Join(r.words, ' ') == ReplaceEach(underscore(text), replaceChars)
    ensures !toList ==> r == Text(ReplaceEach(underscore(text), replaceChars))
    ensures replaceChars == DefaultReplacements && !toList ==>
      forall c :: c in StrippedChars ==> c !in r.text
    ensures replaceChars == DefaultReplacements && toList ==>
      forall i, c :: 0 <= i < |r.words| && c in StrippedChars ==> c !in r.words[i]
  {
    var s := underscore(text);
    for i := 0 to |replaceChars|
      invariant s == ReplaceEach(underscore(text), replaceChars[..i])
    {
      assert replaceChars[..i + 1][..i] == replaceChars[..i];
      s := Replace(s, replaceChars[i].0, replaceChars[i].1);
    }
    assert replaceChars[..|replaceChars|] == replaceChars;
    if replaceChars == DefaultReplacements {
      DefaultReplacementsStrip(underscore(text));
    }
    if toList {
      SplitThenJoin(s, ' ');
      if replaceChars == DefaultReplacements {
        forall c | c in StrippedChars
          ensures forall i :: 0 <= i < |Split(s, ' ')| ==> c !in Split(s, ' ')[i]
        {
          SplitAvoids(s, ' ', c);
        }
      }
      r := Words(Split(s, ' '));
    } else {
      r := Text(s);
    }
  }

  /** The words `in_vocab` checks: a string is split on single spaces. */
  function Pieces(wordList: Tokens): seq<string>
  {
    match wordList
    case Text(s) => Split(s, ' ')
    case Words(ws) => ws
  }

  /** `in_vocab(word_list, model)`: every piece is a vocabulary word. */
  predicate InVocab(wordList: Tokens, vocab: set<string>)
    ensures InVocab(wordList, vocab) <==> (set w | w in Pieces(wordList)) <= vocab
  {
    forall i :: 0 <= i < |Pieces(wordList)| ==> Pieces(wordList)[i] in vocab
  }

  /** A multi-word string is in the vocabulary exactly when each of its
      space-free words is. */
  lemma InVocabJoined(words: seq<string>, vocab: set<string>)
    requires |words| >= 1
    requires forall i :: 0 <= i < |words| ==> ' ' !in words[i]
    ensures InVocab(Text(Join(words, ' ')), vocab) <==> forall i :: 0 <= i < |words| ==> words[i] in vocab
  {
    JoinThenSplit(words, ' ');
    assert Pieces(Text(Join(words, ' '))) == words;
  }

  /** An empty list is trivially in the vocabulary, but the empty string is
      one empty word, which must itself be in the vocabulary. */
  lemma InVocabEmpty(vocab: set<string>)
    ensures InVocab(Words([]), vocab)
    ensures InVocab(Text(""), vocab) <==> "" in vocab
  {
    assert Split("", ' ') == [""];
    assert Pieces(Text("")) == [""];
    assert Pieces(Text(""))[0] == "";
  }

  /** A class name such as "foo bar" is out of the vocabulary as soon as one
      of its words is. */
  lemma InVocabTwoWords(first: string, second: string, vocab: set<string>)
    requires ' ' !in first && ' ' !in second
    ensures InVocab(Text(first + " " + second), vocab) <==> first in vocab && second in vocab
  {
    var ws := [first, second];
    assert Join(ws, ' ') == first + " " + second;
    InVocabJoined(ws, vocab);
  }

  /** `get_dropped(old, new)`: the elements of the first collection that are
      not in the second. */
  function GetDropped<T(==, !new)>(before: seq<T>, after: seq<T>): (dropped: set<T>)
    ensures forall x :: x in dropped <==> x in before && x !in after
  {
    (set x | x in before) - (set x | x in after)
  }

  /** `os.path.basename` on a POSIX path: what follows the last `/`. */
  function Basename(path: string): (base: string)
    ensures '/' !in base
    ensures |base| <= |path| && base == path[|path| - |base|..]
    ensures |base| < |path| ==> path[|path| - |base| - 1] == '/'
  {
    if path == [] || path[|path| - 1] == '/' then []
    else
      var init := path[..|path| - 1];
      var base := Basename(init);
      assert init[|init| - |base|..] + [path[|path| - 1]] == path[|path| - |base| - 1..];
      assert |base| < |init| ==> init[|init| - |base| - 1] == path[|path| - |base| - 2];
      base + [path[|path| - 1]]
  }

  /** The first piece of a split is everything before the first separator. */
  lemma SplitHead(s: string, sep: char)
    ensures Split(s, sep)[0] == if sep in s then s[..IndexOf(s, sep)] else s
  {
  }

  /** The first piece of a split on `.` is a dot-free prefix, and keeps out
      any character the whole string lacks. */
  lemma FirstPiece(s: string, c: char)
    requires c !in s
    ensures var name := Split(s, '.')[0];
      c !in name && '.' !in name && |name| <= |s| && name == s[..|name|]
  {
    SplitHead(s, '.');
    SplitAvoids(s, '.', c);
  }

  /** `path_to_name(path)`: the last path component cut at its first `.`. */
  function PathToName(path: string): (name: string)
    ensures '/' !in name && '.' !in name
    ensures |name| <= |Basename(path)| && name == Basename(path)[..|name|]
  {
    var base := Basename(path);
    FirstPiece(base, '/');
    Split(base, '.')[0]
  }

  /** A character other than `/` appended to a path is appended to its
      basename. */
  lemma BasenameSnoc(path: string, last: char)
    requires last != '/'
    ensures Basename(path + [last]) == Basename(path) + [last]
  {
    assert (path + [last])[..|path|] == path;
  }

  /** The basename of `dir + file` is `file` when `dir` is empty or ends in
      a slash and `file` has none. */
  lemma {:induction false} BasenameOf(dir: string, file: string)
    requires dir == [] || dir[|dir| - 1] == '/'
    requires '/' !in file
    ensures Basename(dir + file) == file
  {
    if file == [] {
      assert dir + file == dir;
    } else {
      var init := file[..|file| - 1];
      var last := file[|file| - 1];
      assert file == init + [last];
      assert dir + file == (dir + init) + [last];
      BasenameOf(dir, init);
      BasenameSnoc(dir + init, last);
    }
  }

  /** `path_to_name` recovers the name from a directory, the name and an
      extension that starts with a dot. */
  lemma {:induction false} PathToNameOf(dir: string, name: string, ext: string)
    requires dir == [] || dir[|dir| - 1] == '/'
    requires '/' !in name && '.' !in name
    requires ext == [] || (ext[0] == '.' && '/' !in ext)
    ensures PathToName(dir + name + ext) == name
  {
    assert dir + name + ext == dir + (name + ext);
    BasenameOf(dir, name + ext);
    if ext == [] {
      assert name + ext == name;
    } else {
      IndexOfPast(name, ext, '.');
      assert (name + ext)[..|name|] == name;
    }
  }

  /** `path_to_name("a/b/x.tar.gz")` is `"x"`: the last component, cut at
      its first dot. */
  lemma PathToNameExample()
    ensures PathToName("a/b/x.tar.gz") == "x"
  {
    assert "a/b/x.tar.gz" == "a/b/" + "x" + ".tar.gz";
    PathToNameOf("a/b/", "x", ".tar.gz");
  }
}
