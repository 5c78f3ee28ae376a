/**
 Turning a dotted i18n key such as "settings.mcp.sync.title" into the list of
 keys that the locale files are walked along (scripts/auto-i18n.py, lines
 83-85): the key is split on '.', the way Python's `str.split(".")` does, and
 "translation" is put in front unless the first segment already is
 "translation".
 */
module KeyPath {

  /** The top-level member that holds every translation in a locale file. */
  const Prefix: string := "translation"

  /** The segments joined back together with `sep` between neighbours. */
  function Join(parts: seq<string>, sep: char): string
    decreases |parts|
  {
    if parts == [] then []
    else if |parts| == 1 then parts[0]
    else parts[0] + [sep] + Join(parts[1..], sep)
  }

  /** Python's `s.split(sep)` for a one-character separator: the maximal runs
      between separators, empty runs included, so there is always at least one
      segment. */
  function Split(s: string, sep: char): (parts: seq<string>)
    ensures |parts| >= 1
    ensures forall i | 0 <= i < |parts| :: sep !in parts[i]
    ensures Join(parts, sep) == s
    decreases |s|
  {
    if s == [] then [[]]
    else
      var rest := Split(s[1..], sep);
      if s[0] == sep then [[]] + rest
      else
        assert Join(rest, sep) == rest[0] + Join([[]] + rest[1..], sep) by { JoinFirst(rest, sep); }
        assert Join([[s[0]] + rest[0]] + rest[1..], sep) == [s[0]] + rest[0] + Join([[]] + rest[1..], sep) by {
          JoinFirst([[s[0]] + rest[0]] + rest[1..], sep);
        }
        [[s[0]] + rest[0]] + rest[1..]
  }

  /** Joining splits off the first segment unchanged: what follows it is the
      join of the remaining segments behind an empty first one. */
  lemma JoinFirst(parts: seq<string>, sep: char)
    requires |parts| >= 1
    ensures Join(parts, sep) == parts[0] + Join([[]] + parts[1..], sep)
  {
    if |parts| > 1 {
      assert ([[]] + parts[1..])[1..] == parts[1..];
    }
  }

  /** Splitting a separator-free word followed by a separator. */
  lemma {:induction false} SplitWordThenSep(w: string, t: string, sep: char)
    requires sep !in w
    ensures Split(w + [sep] + t, sep) == [w] + Split(t, sep)
    decreases |w|
  {
    if w == [] {
      assert w + [sep] + t == [sep] + t;
      assert ([sep] + t)[1..] == t;
    } else {
      assert (w + [sep] + t)[1..] == w[1..] + [sep] + t;
      SplitWordThenSep(w[1..], t, sep);
      assert [w[0]] + w[1..] == w;
    }
  }

  /** A separator-free word splits into itself. */
  lemma {:induction false} SplitWord(w: string, sep: char)
    requires sep !in w
    ensures Split(w, sep) == [w]
    decreases |w|
  {
    if w != [] {
      SplitWord(w[1..], sep);
      assert [w[0]] + w[1..] == w;
    }
  }

  /** Splitting undoes joining, for segments that hold no separator. */
  lemma {:induction false} SplitJoin(parts: seq<string>, sep: char)
    requires |parts| >= 1
    requires forall i | 0 <= i < |parts| :: sep !in parts[i]
    ensures Split(Join(parts, sep), sep) == parts
    decreases |parts|
  {
    if |parts| == 1 {
      SplitWord(parts[0], sep);
    } else {
      SplitJoin(parts[1..], sep);
      SplitWordThenSep(parts[0], Join(parts[1..], sep), sep);
      assert [parts[0]] + parts[1..] == parts;
    }
  }

  /** The key already names the "translation" member: it is that word alone or
      starts with it followed by a dot. */
  predicate HasPrefix(key: string)
  {
    key == Prefix || (|key| > |Prefix| && key[..|Prefix| + 1] == Prefix + ".")
  }

  /** The key list a dotted key stands for. */
  function NormalizeKey(key: string): (keys: seq<string>)
    ensures |keys| >= 1 && keys[0] == Prefix
    ensures forall i | 0 <= i < |keys| :: '.' !in keys[i]
  {
    var parts := Split(key, '.');
    if parts[0] != Prefix then [Prefix] + parts else parts
  }

  /** The first segment is "translation" exactly when the key has the prefix. */
  lemma FirstSegmentIsPrefix(key: string)
    ensures Split(key, '.')[0] == Prefix <==> HasPrefix(key)
  {
    var parts := Split(key, '.');
    JoinFirst(parts, '.');
    var tail := Join([[]] + parts[1..], '.');
    assert key == parts[0] + tail;
    assert tail == [] || tail[0] == '.';
    if HasPrefix(key) && key != Prefix {
      var t := key[|Prefix| + 1..];
      assert key == Prefix + "." + t;
      SplitWordThenSep(Prefix, t, '.');
    } else if key == Prefix {
      SplitWord(Prefix, '.');
    }
    if parts[0] == Prefix && tail != [] {
      assert key[..|Prefix| + 1] == Prefix + ".";
    }
  }

  /** Reading the key list back as a dotted key gives the key with
      "translation." in front, unless it was there already. */
  lemma NormalizeKeyJoin(key: string)
    ensures Join(NormalizeKey(key), '.') == if HasPrefix(key) then key else Prefix + "." + key
  {
    FirstSegmentIsPrefix(key);
    var parts := Split(key, '.');
    if !HasPrefix(key) {
      JoinFirst([Prefix] + parts, '.');
      assert ([Prefix] + parts)[1..] == parts;
      JoinFirst([[]] + parts, '.');
      assert ([[]] + parts)[1..] == parts;
    }
  }

  /** A key that does not start with "translation" keeps all its segments, in
      order, behind the added prefix. */
  lemma NormalizeKeyAddsPrefix(key: string)
    requires !HasPrefix(key)
    ensures NormalizeKey(key) == [Prefix] + Split(key, '.')
  {
  }

  /** A key that already starts with "translation." gets no second prefix. */
  lemma NormalizeKeyKeepsPrefix(rest: string)
    ensures NormalizeKey(Prefix + "." + rest) == [Prefix] + Split(rest, '.')
  {
    SplitWordThenSep(Prefix, rest, '.');
  }

  /** Normalising is idempotent on its own output read back as a dotted key. */
  lemma NormalizeKeyIdempotent(key: string)
    ensures NormalizeKey(Join(NormalizeKey(key), '.')) == NormalizeKey(key)
  {
    SplitJoin(NormalizeKey(key), '.');
  }
}
