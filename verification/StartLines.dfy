/** The first line of a request: what the pattern lets pass, and how it is cut up behind it. */
module StartLines {
  import opened Text
  import opened Wrappers

  datatype HttpMethod = GET | POST | HEAD | PUT | DELETE | CONNECT | OPTIONS | TRACE | PATCH | UNKNOWN

  datatype StartLine = StartLine(httpMethod: HttpMethod, address: string, query: string, protocol: string)

  /** The methods the pattern names. */
  const METHODS: seq<string> := ["GET", "POST", "PUT", "DELETE", "HEAD", "OPTIONS", "PATCH"]

  /** httpMethodToString, for the methods there are. */
  function NameOf(httpMethod: HttpMethod): string {
    match httpMethod
    case GET => "GET" case POST => "POST" case HEAD => "HEAD" case PUT => "PUT" case DELETE => "DELETE"
    case CONNECT => "CONNECT" case OPTIONS => "OPTIONS" case TRACE => "TRACE" case PATCH => "PATCH" case UNKNOWN => ""
  }

  predicate IsMethod(word: string) {
    word in METHODS
  }

  function MethodOf(text: string): HttpMethod {
    if text == "GET" then GET else if text == "POST" then POST else if text == "HEAD" then HEAD
    else if text == "PUT" then PUT else if text == "DELETE" then DELETE else if text == "CONNECT" then CONNECT
    else if text == "OPTIONS" then OPTIONS else if text == "TRACE" then TRACE else if text == "PATCH" then PATCH
    else UNKNOWN
  }

  predicate IsVersion(text: string) {
    |text| == 8 && text[..5] == "HTTP/" && '0' <= text[5] <= '9' && text[6] == '.' && '0' <= text[7] <= '9'
  }

  /** The pattern, with the part between the blanks left to `targetOk`. */
  predicate IsStartLine(targetOk: string -> bool, line: string) {
    var a := Find(line, ' ', 0);
    a < |line| &&
    var b := Find(line, ' ', a + 1);
    b < |line| && IsMethod(line[..a]) && targetOk(line[a + 1..b]) && IsVersion(line[b + 1..])
  }

  /** The line cut at its blanks and at the first question mark. */
  function Split(line: string): StartLine
    requires Find(line, ' ', 0) < |line|
    requires Find(line, ' ', Find(line, ' ', 0) + 1) < |line|
  {
    var a := Find(line, ' ', 0);
    var b := Find(line, ' ', a + 1);
    CutUp(line[..a], line[a + 1..b], line[b + 1..])
  }

  /** The protocol is all that is left: the count of its bytes is computed as a negative one, which wraps around. */
  function CutUp(word: string, target: string, version: string): StartLine {
    var q := Find(target, '?', 0);
    StartLine(MethodOf(word), target[..q], if q < |target| then target[q + 1..] else "", version)
  }

  /** The start line that is read, or none when the pattern does not match. */
  function ReadLine(targetOk: string -> bool, line: string): Option<StartLine> {
    if IsStartLine(targetOk, line) then Some(Split(line)) else None
  }

  lemma TwoBlanks(targetOk: string -> bool, line: string)
    requires IsStartLine(targetOk, line)
    ensures var a := Find(line, ' ', 0);
            a < |line| &&
            var b := Find(line, ' ', a + 1);
            a < b < |line| && Split(line) == CutUp(line[..a], line[a + 1..b], line[b + 1..])
  {
    hide IsMethod, IsVersion, CutUp;
  }

  /** Cutting up, with the query first taken off when there is one. */
  lemma CutsAt(word: string, target: string, version: string)
    ensures var q, n := Find(target, '?', 0), |target|;
            CutUp(word, target, version) ==
            StartLine(MethodOf(word), if q < n then target[..q] else target, if q < n then target[q + 1..] else "",
                      version)
  {
    hide MethodOf;
    assert target[..|target|] == target;
  }

  /** Where the blanks of three words are. */
  lemma BlanksOf(word: string, target: string, version: string)
    requires Lacks(word, ' ') && Lacks(target, ' ')
    ensures var line := word + " " + target + " " + version;
            && Find(line, ' ', 0) == |word| && Find(line, ' ', |word| + 1) == |word| + 1 + |target|
            && line[..|word|] == word && line[|word| + 1..|word| + 1 + |target|] == target
            && line[|word| + 1 + |target| + 1..] == version && |word| + 1 + |target| < |line|
  {
    var line := word + " " + target + " " + version;
    assert forall i :: 0 <= i < |word| ==> line[i] == word[i];
    assert forall i :: 0 <= i < |target| ==> line[|word| + 1 + i] == target[i];
    assert line[|word|] == ' ' && line[|word| + 1 + |target|] == ' ';
    assert forall j :: |word| + 1 <= j < |word| + 1 + |target| ==> line[j] == target[j - (|word| + 1)];
  }

  lemma MethodsLackBlanks(word: string)
    requires word in METHODS
    ensures Lacks(word, ' ')
  {
  }

  /** What the pattern lets pass: a method, a target without blanks, and a version, with one blank between them. */
  lemma PassesIff(targetOk: string -> bool, line: string)
    ensures IsStartLine(targetOk, line) <==>
            exists word, target, version :: Words(targetOk, line, word, target, version)
  {
    hide IsVersion, IsMethod, Words;
    if IsStartLine(targetOk, line) {
      var a := Find(line, ' ', 0);
      var b := Find(line, ' ', a + 1);
      ThreeWords(line, a, b);
      WordsAre(targetOk, line, line[..a], line[a + 1..b], line[b + 1..]);
    }
    if word, target, version :| Words(targetOk, line, word, target, version) {
      WordsPass(targetOk, line, word, target, version);
    }
  }

  predicate Words(targetOk: string -> bool, line: string, word: string, target: string, version: string) {
    && line == word + " " + target + " " + version
    && word in METHODS && Lacks(target, ' ') && targetOk(target) && IsVersion(version)
  }

  lemma ThreeWords(line: string, a: nat, b: nat)
    requires a < b < |line| && line[a] == ' ' == line[b] && forall j :: a < j < b ==> line[j] != ' '
    ensures line == line[..a] + " " + line[a + 1..b] + " " + line[b + 1..]
    ensures Lacks(line[a + 1..b], ' ')
  {
    var target := line[a + 1..b];
    forall j | 0 <= j < |target| ensures target[j] != ' ' {
      assert target[j] == line[a + 1 + j];
    }
  }

  lemma WordsAre(targetOk: string -> bool, line: string, word: string, target: string, version: string)
    requires line == word + " " + target + " " + version
    requires IsMethod(word) && Lacks(target, ' ') && targetOk(target) && IsVersion(version)
    ensures Words(targetOk, line, word, target, version)
  {
  }

  lemma WordsPass(targetOk: string -> bool, line: string, word: string, target: string, version: string)
    requires Words(targetOk, line, word, target, version)
    ensures IsStartLine(targetOk, line) && Find(line, ' ', 0) == |word| &&
            Find(line, ' ', |word| + 1) == |word| + 1 + |target|
  {
    MethodsLackBlanks(word);
    BlanksOf(word, target, version);
    hide IsVersion, Lacks;
  }

  /** The path of a target, and what stands behind the first question mark. */
  lemma QueryOf(path: string, query: Option<string>)
    requires Lacks(path, '?')
    ensures var target := TargetText(path, query);
            var q := Find(target, '?', 0);
            && target[..q] == path
            && (if query.Some? then q < |target| && target[q + 1..] == query.value else q == |target|)
  {
    var target := TargetText(path, query);
    assert forall i :: 0 <= i < |path| ==> target[i] == path[i];
    if query.None? {
      assert target == path;
    } else {
      assert target[|path|] == '?';
    }
    assert Find(target, '?', 0) == |path|;
  }

  function TargetText(path: string, query: Option<string>): string {
    path + (if query.Some? then "?" + query.value else "")
  }

  lemma LackBlanks(targetOk: string -> bool, line: string, word: string, target: string, version: string)
    requires Words(targetOk, line, word, target, version)
    ensures Lacks(word, ' ') && Lacks(target, ' ')
  {
    MethodsLackBlanks(word);
  }

  lemma SplitOfWords(targetOk: string -> bool, word: string, target: string, version: string)
    requires Words(targetOk, word + " " + target + " " + version, word, target, version)
    ensures var line := word + " " + target + " " + version;
            && Find(line, ' ', 0) < |line| && Find(line, ' ', Find(line, ' ', 0) + 1) < |line|
            && Split(line) == CutUp(word, target, version)
  {
    hide IsMethod, Lacks, IsStartLine, CutUp, IsVersion;
    WordsPass(targetOk, word + " " + target + " " + version, word, target, version);
    LackBlanks(targetOk, word + " " + target + " " + version, word, target, version);
    BlanksOf(word, target, version);
  }

  /** A printed start line is read back: method, path, query and version. */
  lemma StartLineReadBack(targetOk: string -> bool, httpMethod: HttpMethod, path: string, query: Option<string>,
                          version: string)
    requires httpMethod !in {CONNECT, TRACE, UNKNOWN} && Lacks(path, '?') && IsVersion(version)
    requires Lacks(TargetText(path, query), ' ') && targetOk(TargetText(path, query))
    ensures var target := TargetText(path, query);
            ReadLine(targetOk, NameOf(httpMethod) + " " + target + " " + version) ==
            Some(StartLine(httpMethod, path, if query.Some? then query.value else "", version))
  {
    var word := NameOf(httpMethod);
    NameReadBack(httpMethod);
    assert IsMethod(word);
    hide NameOf, IsMethod;
    hide IsVersion, TargetText, Lacks, IsStartLine, MethodOf, Words, Split;
    var target := TargetText(path, query);
    WordsAre(targetOk, word + " " + target + " " + version, word, target, version);
    WordsPass(targetOk, word + " " + target + " " + version, word, target, version);
    SplitOfWords(targetOk, word, target, version);
    QueryOf(path, query);
  }

  /** Method and name: the pattern names all methods but two, and each name is read as its method. */
  lemma NameReadBack(httpMethod: HttpMethod)
    requires httpMethod != UNKNOWN
    ensures MethodOf(NameOf(httpMethod)) == httpMethod
    ensures NameOf(httpMethod) in METHODS <==> httpMethod !in {CONNECT, TRACE}
  {
    assert forall i :: 0 <= i < |METHODS| ==> METHODS[i] != "CONNECT" && METHODS[i] != "TRACE";
  }
}
