/**
 * The pure helpers of the Rapidshare client: the file-status classifier,
 * the URL tail splitter and the `key=value` response parser.
 */
module Utils {
  import opened Outcomes
  import opened Paths

  datatype FileStatus = FileOk | FileError

  /** `decode_file_status`: 1 is the only code that means the file can be fetched. */
  function DecodeFileStatus(code: int): (r: FileStatus)
    ensures r == FileOk <==> code == 1
  {
    match code
    case 0 => FileError   // file not found
    case 1 => FileOk
    case 3 => FileError   // server down
    case 4 => FileError   // file marked as illegal
    case _ => FileError   // unknown status
  }

  /** `fileid_and_filename`: the last two '/'-separated fields, or two empty strings. */
  function FileIdAndFilename(url: string): (r: seq<string>)
    ensures |r| == 2
    ensures r != ["", ""] ==> |Split(url, '/')| >= 2
  {
    var parts := Split(url, '/');
    if |parts| >= 2 then parts[|parts| - 2..] else ["", ""]
  }

  /** A URL ending in `/<id>/<name>` yields exactly `[id, name]`. */
  lemma {:induction false} FileIdAndFilenameTail(prefix: string, id: string, name: string)
    requires Free(id, '/') && Free(name, '/') && name != []
    ensures FileIdAndFilename(prefix + "/" + id + "/" + name) == [id, name]
  {
    var p := SplitAll(prefix, '/');
    JoinSplitAll(prefix, '/');
    var all := p + [id, name];
    JoinAppend(p, [id, name], '/');
    assert Join([id, name], '/') == id + "/" + name;
    assert Join(all, '/') == prefix + "/" + id + "/" + name;
    assert forall k :: 0 <= k < |all| ==> Free(all[k], '/') by {
      forall k | 0 <= k < |all| ensures Free(all[k], '/') {
        if k < |p| { assert all[k] == p[k]; }
      }
    }
    SplitAllJoin(all, '/');
    assert DropTrailingEmpty(all) == all;
    assert all[|all| - 2..] == [id, name];
  }

  /**
   * Any URL made of two or more '/'-free fields, the last one non-empty,
   * yields its last two fields: "id/name" as well as "host/files/id/name".
   */
  lemma {:induction false} FileIdAndFilenameFields(parts: seq<string>)
    requires |parts| >= 2 && parts[|parts| - 1] != []
    requires forall k :: 0 <= k < |parts| ==> Free(parts[k], '/')
    ensures FileIdAndFilename(Join(parts, '/')) == [parts[|parts| - 2], parts[|parts| - 1]]
  {
    SplitAllJoin(parts, '/');
    assert DropTrailingEmpty(parts) == parts;
    assert parts[|parts| - 2..] == [parts[|parts| - 2], parts[|parts| - 1]];
  }

  /** The example URL from the helper's documentation. */
  lemma FileIdAndFilenameExample()
    ensures FileIdAndFilename("https://rapidshare.com/files/829628035/HornyRhinos.jpg")
         == ["829628035", "HornyRhinos.jpg"]
  {
    assert "https://rapidshare.com/files/829628035/HornyRhinos.jpg"
        == "https://rapidshare.com/files" + "/" + "829628035" + "/" + "HornyRhinos.jpg";
    FileIdAndFilenameTail("https://rapidshare.com/files", "829628035", "HornyRhinos.jpg");
  }

  /** Ruby's split drops trailing empty fields, so "a/b/" behaves like "a/b". */
  lemma {:induction false} FileIdAndFilenameTrailingSlash(url: string)
    ensures FileIdAndFilename(url + "/") == FileIdAndFilename(url)
  {
    SplitTrailingSeparator(url, '/');
  }

  /** Fewer than two fields fall back to two empty strings. */
  lemma {:induction false} FileIdAndFilenameFallback(url: string)
    requires Free(url, '/')
    ensures FileIdAndFilename(url) == ["", ""]
  {
    assert |SplitAll(url, '/')| == 1 by { SplitAllFree(url, '/'); }
  }

  lemma {:induction false} SplitAllFree(s: string, c: char)
    requires Free(s, c)
    ensures SplitAll(s, c) == [s]
    decreases |s|
  {
    if s != [] {
      SplitAllFree(s[1..], c);
      assert [s[0]] + s[1..] == s;
    }
  }

  // ---------------------------------------------------------------------
  // text_to_hash

  /** Whitespace as String#strip and the regex class \s see it. */
  predicate IsSpace(ch: char) {
    ch == ' ' || ch == '\t' || ch == '\n' || ch == '\r' || ch == '\U{000B}' || ch == '\U{000C}'
  }

  predicate AllSpace(s: string) {
    forall i :: 0 <= i < |s| ==> IsSpace(s[i])
  }

  function StripLeft(s: string): (r: string)
    ensures |r| <= |s| && (r == [] || !IsSpace(r[0]))
    ensures r == s[|s| - |r|..] && AllSpace(s[..|s| - |r|])
    decreases |s|
  {
    if s != [] && IsSpace(s[0]) then
      var r := StripLeft(s[1..]);
      assert s[|s| - |r|..] == s[1..][|s[1..]| - |r|..];
      assert forall i | 1 <= i < |s| - |r| :: s[i] == s[1..][..|s[1..]| - |r|][i - 1];
      r
    else s
  }

  function StripRight(s: string): (r: string)
    ensures |r| <= |s| && (r == [] || !IsSpace(r[|r| - 1]))
    ensures r == s[..|r|] && AllSpace(s[|r|..])
    decreases |s|
  {
    if s != [] && IsSpace(s[|s| - 1]) then
      var r := StripRight(s[..|s| - 1]);
      assert s[..|r|] == s[..|s| - 1][..|r|];
      assert forall i | |r| <= i < |s| - 1 :: s[i] == s[..|s| - 1][|r|..][i - |r|];
      r
    else s
  }

  /** String#strip */
  function Strip(s: string): (r: string)
    ensures r == [] || (!IsSpace(r[0]) && !IsSpace(r[|r| - 1]))
  {
    StripRight(StripLeft(s))
  }

  /**
   * `split(/\s*\n\s*\/)` of an already stripped text: the newline-separated
   * lines, each without its surrounding whitespace; whitespace-only lines
   * merge into the separators around them.
   */
  function Lines(parts: seq<string>): (r: seq<string>)
    ensures forall k :: 0 <= k < |r| ==> r[k] != []
    decreases |parts|
  {
    if parts == [] then []
    else
      var line := Strip(parts[0]);
      if line == [] then Lines(parts[1..]) else [line] + Lines(parts[1..])
  }

  datatype Pair = Pair(key: string, value: Option<string>)

  /** `param.split('=')` fed to Hash[]: one field is a key without value, two a key and value. */
  function ParseLine(line: string): (r: Result<Pair>)
    ensures r.Ok? <==> 1 <= |Split(line, '=')| <= 2
    ensures r.Ok? ==> Free(r.value.key, '=')
  {
    var f := Split(line, '=');
    if |f| == 1 then Ok(Pair(f[0], None))
    else if |f| == 2 then Ok(Pair(f[0], Some(f[1])))
    else Err(InvalidElements(line))
  }

  function ParseLines(lines: seq<string>): (r: Result<seq<Pair>>)
    ensures r.Ok? ==> |r.value| == |lines|
    ensures r.Ok? <==> forall k :: 0 <= k < |lines| ==> ParseLine(lines[k]).Ok?
    decreases |lines|
  {
    if lines == [] then Ok([])
    else
      var p :- ParseLine(lines[0]);
      var rest :- ParseLines(lines[1..]);
      assert forall k :: 1 <= k < |lines| ==> lines[k] == lines[1..][k - 1];
      Ok([p] + rest)
  }

  /** Hash[pairs]: every key present, and a later pair overrides an earlier one. */
  function ToMap(pairs: seq<Pair>): map<string, Option<string>>
    decreases |pairs|
  {
    if pairs == [] then map[]
    else
      var last := pairs[|pairs| - 1];
      ToMap(pairs[..|pairs| - 1])[last.key := last.value]
  }

  /** The keys of Hash[pairs] are exactly the keys of the pairs. */
  lemma {:induction false} ToMapKeys(pairs: seq<Pair>, key: string)
    ensures key in ToMap(pairs) <==> exists i :: 0 <= i < |pairs| && pairs[i].key == key
    decreases |pairs|
  {
    if pairs != [] {
      var init := pairs[..|pairs| - 1];
      ToMapKeys(init, key);
      if key in ToMap(init) {
        var i :| 0 <= i < |init| && init[i].key == key;
        assert pairs[i].key == key;
      }
      if exists i :: 0 <= i < |pairs| && pairs[i].key == key {
        var i :| 0 <= i < |pairs| && pairs[i].key == key;
        if i < |init| { assert init[i].key == key; }
      }
    }
  }

  /** Each key of Hash[pairs] maps to the value of its last pair. */
  lemma {:induction false} ToMapLast(pairs: seq<Pair>, i: int)
    requires 0 <= i < |pairs| && LastWithKey(pairs, i)
    ensures pairs[i].key in ToMap(pairs) && ToMap(pairs)[pairs[i].key] == pairs[i].value
    decreases |pairs|
  {
    if i < |pairs| - 1 {
      var init := pairs[..|pairs| - 1];
      assert init[i] == pairs[i];
      assert LastWithKey(init, i) by {
        forall j | i < j < |init| ensures init[j].key != init[i].key {
          assert init[j] == pairs[j];
        }
      }
      ToMapLast(init, i);
    }
  }

  /** No pair after position i has the same key. */
  predicate LastWithKey(pairs: seq<Pair>, i: int)
    requires 0 <= i < |pairs|
  {
    forall j :: i < j < |pairs| ==> pairs[j].key != pairs[i].key
  }

  /** `text_to_hash` (keys are kept as strings rather than symbols). */
  function TextToHash(text: string): (r: Result<map<string, Option<string>>>)
    ensures r.Ok? ==> forall key :: key in r.value ==> Free(key, '=')
  {
    var lines := Lines(SplitAll(Strip(text), '\n'));
    var pairs :- ParseLines(lines);
    ParsedKeysFree(lines);
    Ok(ToMap(pairs))
  }

  /** Every key of the parsed hash is the key of some line, so none contains '='. */
  lemma {:induction false} ParsedKeysFree(lines: seq<string>)
    requires ParseLines(lines).Ok?
    ensures forall key :: key in ToMap(ParseLines(lines).value) ==> Free(key, '=')
  {
    var pairs := ParseLines(lines).value;
    forall key | key in ToMap(pairs) ensures Free(key, '=') {
      ToMapKeys(pairs, key);
      var i :| 0 <= i < |pairs| && pairs[i].key == key;
      ParseLinesAt(lines, i);
    }
  }

  /** Empty or whitespace-only text gives the empty hash. */
  lemma {:induction false} TextToHashBlank(text: string)
    requires AllSpace(text)
    ensures TextToHash(text) == Ok(map[])
  {
    StripLeftAllSpace(text);
    assert Strip(text) == [];
  }

  lemma {:induction false} StripLeftAllSpace(s: string)
    requires AllSpace(s)
    ensures StripLeft(s) == []
    decreases |s|
  {
    if s != [] { StripLeftAllSpace(s[1..]); }
  }

  /** A later line with the same key overrides an earlier one. */
  lemma {:induction false} TextToHashLaterWins(lines: seq<string>, i: int, j: int)
    requires 0 <= i < j < |lines|
    requires ParseLines(lines).Ok?
    requires ParseLine(lines[i]).value.key == ParseLine(lines[j]).value.key
    requires forall k :: j < k < |lines| ==> ParseLine(lines[k]).value.key != ParseLine(lines[j]).value.key
    ensures ParseLine(lines[j]).value.key in ToMap(ParseLines(lines).value)
    ensures ToMap(ParseLines(lines).value)[ParseLine(lines[j]).value.key] == ParseLine(lines[j]).value.value
  {
    var pairs := ParseLines(lines).value;
    ParseLinesAt(lines, j);
    forall k | j < k < |pairs| ensures pairs[k].key != pairs[j].key {
      ParseLinesAt(lines, k);
    }
    assert LastWithKey(pairs, j);
    ToMapLast(pairs, j);
  }

  lemma {:induction false} ParseLinesAt(lines: seq<string>, k: int)
    requires 0 <= k < |lines| && ParseLines(lines).Ok?
    ensures ParseLines(lines).value[k] == ParseLine(lines[k]).value
    decreases |lines|
  {
    if k > 0 {
      assert lines[1..][k - 1] == lines[k];
      ParseLinesAt(lines[1..], k - 1);
    }
  }

  lemma StripNoSpaceEnds(s: string)
    requires s != [] && !IsSpace(s[0]) && !IsSpace(s[|s| - 1])
    ensures Strip(s) == s
  {
  }

  lemma ParseKeyValue(k: string, v: string)
    requires Free(k, '=') && Free(v, '=') && v != []
    ensures ParseLine(k + "=" + v) == Ok(Pair(k, Some(v)))
  {
    assert k + "=" + v == Join([k, v], '=');
    SplitAllJoin([k, v], '=');
  }

  predicate PlainField(s: string) {
    s != [] && Free(s, '=') && Free(s, '\n') && !IsSpace(s[0]) && !IsSpace(s[|s| - 1])
  }

  lemma {:induction false} LinesOfTwo(l1: string, l2: string)
    requires l1 != [] && l2 != [] && Free(l1, '\n') && Free(l2, '\n')
    requires !IsSpace(l1[0]) && !IsSpace(l1[|l1| - 1]) && !IsSpace(l2[0]) && !IsSpace(l2[|l2| - 1])
    ensures Lines(SplitAll(Strip(l1 + "\n" + l2), '\n')) == [l1, l2]
  {
    var text := l1 + "\n" + l2;
    StripNoSpaceEnds(text);
    assert text == Join([l1, l2], '\n');
    SplitAllJoin([l1, l2], '\n');
    StripNoSpaceEnds(l1);
    StripNoSpaceEnds(l2);
    assert [l1, l2][1..] == [l2];
    assert Lines([l2]) == [l2];
  }

  /** A line a response carries unchanged: non-empty, one line, no whitespace at either end. */
  predicate PlainLine(s: string) {
    s != [] && Free(s, '\n') && !IsSpace(s[0]) && !IsSpace(s[|s| - 1])
  }

  /** Plain lines come through the stripping and dropping of blank lines as they are. */
  lemma {:induction false} LinesOfPlain(ls: seq<string>)
    requires forall k :: 0 <= k < |ls| ==> PlainLine(ls[k])
    ensures Lines(ls) == ls
    decreases |ls|
  {
    if ls != [] {
      var line, rest := ls[0], ls[1..];
      forall k | 0 <= k < |rest| ensures PlainLine(rest[k]) { assert rest[k] == ls[k + 1]; }
      LinesOfPlain(rest);
      assert PlainLine(line);
      StripNoSpaceEnds(line);
      assert Lines(ls) == [line] + rest;
      assert ls == [line] + rest;
    }
  }

  /** A join starts with the first part's first character and ends with the last part's last. */
  lemma {:induction false} JoinEnds(ls: seq<string>, c: char)
    requires |ls| >= 1
    ensures ls[0] != [] ==> Join(ls, c) != [] && Join(ls, c)[0] == ls[0][0]
    ensures ls[|ls| - 1] != [] ==>
      Join(ls, c) != [] && Join(ls, c)[|Join(ls, c)| - 1] == ls[|ls| - 1][|ls[|ls| - 1]| - 1]
    decreases |ls|
  {
    if |ls| > 1 {
      assert ls[1..][|ls[1..]| - 1] == ls[|ls| - 1];
      JoinEnds(ls[1..], c);
    }
  }

  /** Plain lines joined with newlines split back into the same lines. */
  lemma {:induction false} LinesOfJoin(ls: seq<string>)
    requires forall k :: 0 <= k < |ls| ==> PlainLine(ls[k])
    ensures Lines(SplitAll(Strip(Join(ls, '\n')), '\n')) == ls
  {
    if ls == [] {
      assert Strip([]) == [];
      assert Lines([[]]) == Lines([]);
    } else {
      JoinEnds(ls, '\n');
      StripNoSpaceEnds(Join(ls, '\n'));
      SplitAllJoin(ls, '\n');
      LinesOfPlain(ls);
    }
  }

  /** `text_to_hash` of plain lines joined with newlines is Hash[] of those lines' pairs. */
  lemma {:induction false} TextToHashOfLines(ls: seq<string>)
    requires forall k :: 0 <= k < |ls| ==> PlainLine(ls[k])
    ensures TextToHash(Join(ls, '\n')).Ok? <==> ParseLines(ls).Ok?
    ensures ParseLines(ls).Ok? ==> TextToHash(Join(ls, '\n')).value == ToMap(ParseLines(ls).value)
  {
    LinesOfJoin(ls);
  }

  lemma {:induction false} ParseLinesOfTwo(l1: string, l2: string, p1: Pair, p2: Pair)
    requires ParseLine(l1) == Ok(p1) && ParseLine(l2) == Ok(p2)
    ensures ParseLines([l1, l2]) == Ok([p1, p2])
  {
    assert [l1, l2][1..] == [l2];
    assert [l2][1..] == [];
    assert ParseLines([]) == Ok([]);
    assert [p2] + [] == [p2];
    assert ParseLines([l2]) == Ok([p2]);
    assert [p1] + [p2] == [p1, p2];
  }

  lemma {:induction false} ToMapOfTwo(a: Pair, b: Pair)
    ensures ToMap([a, b]) == map[a.key := a.value, b.key := b.value]
  {
    assert [a, b][..1] == [a];
    assert [a][..0] == [];
    assert ToMap([a]) == ToMap([])[a.key := a.value];
    assert ToMap([a, b]) == ToMap([a])[b.key := b.value];
  }

  /** A two-line response "k1=v1\nk2=v2" gives both entries, the second winning on a shared key. */
  lemma {:induction false} TextToHashTwoLines(k1: string, v1: string, k2: string, v2: string)
    requires PlainField(k1) && PlainField(v1) && PlainField(k2) && PlainField(v2)
    ensures TextToHash(k1 + "=" + v1 + "\n" + k2 + "=" + v2)
         == Ok(map[k1 := Some(v1), k2 := Some(v2)])
  {
    var l1, l2 := k1 + "=" + v1, k2 + "=" + v2;
    var text := k1 + "=" + v1 + "\n" + k2 + "=" + v2;
    assert text == l1 + "\n" + l2;
    assert Free(l1, '\n') by {
      forall i | 0 <= i < |l1| ensures l1[i] != '\n' {
        if i < |k1| { assert l1[i] == k1[i]; } else if i > |k1| { assert l1[i] == v1[i - |k1| - 1]; }
      }
    }
    assert Free(l2, '\n') by {
      forall i | 0 <= i < |l2| ensures l2[i] != '\n' {
        if i < |k2| { assert l2[i] == k2[i]; } else if i > |k2| { assert l2[i] == v2[i - |k2| - 1]; }
      }
    }
    assert l1[0] == k1[0] && l1[|l1| - 1] == v1[|v1| - 1];
    assert l2[0] == k2[0] && l2[|l2| - 1] == v2[|v2| - 1];
    LinesOfTwo(l1, l2);
    assert Lines(SplitAll(Strip(text), '\n')) == [l1, l2];
    ParseKeyValue(k1, v1);
    ParseKeyValue(k2, v2);
    var pairs := [Pair(k1, Some(v1)), Pair(k2, Some(v2))];
    ParseLinesOfTwo(l1, l2, pairs[0], pairs[1]);
    ToMapOfTwo(pairs[0], pairs[1]);
    assert TextToHash(text) == Ok(ToMap(pairs));
  }

  /** The response "key1=value1\nkey2=value2". */
  lemma TextToHashExample()
    ensures TextToHash("key1=value1\nkey2=value2")
         == Ok(map["key1" := Some("value1"), "key2" := Some("value2")])
  {
    assert "key1=value1\nkey2=value2" == "key1" + "=" + "value1" + "\n" + "key2" + "=" + "value2";
    assert PlainField("key1") && PlainField("value1") && PlainField("key2") && PlainField("value2");
    TextToHashTwoLines("key1", "value1", "key2", "value2");
  }
}
