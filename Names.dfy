/** Name handling of the generator: escaping of reserved words
    (convertReservedWords), the package prefix derived from the schema's
    target namespace (extractPackageFromNamespace) and the name of the
    update script. */
module Names {
  import opened JavaStrings

  // ---------------------------------------------------------------------
  // Reserved words
  // ---------------------------------------------------------------------

  /** The reserved Java keywords and reserved SQL keywords of the
      scaffolding tool's library, in lower case. Their contents are not part
      of this model. */
  datatype ReservedWords = ReservedWords(java: set<string>, sql: set<string>)

  predicate IsReserved(words: ReservedWords, lowered: string) {
    lowered in words.java || lowered in words.sql
  }

  /** convertReservedWords: every '-' becomes '_'; when the result, lower
      cased, is a reserved word, "1" is appended. */
  function ConvertReservedWords(name: string, words: ReservedWords): (r: string)
    ensures |r| == |name| || |r| == |name| + 1
    ensures '-' !in r
    ensures r[..|name|] == ReplaceChar(name, '-', '_')
    ensures |r| == |name| + 1 <==> IsReserved(words, ToLower(ReplaceChar(name, '-', '_')))
    ensures |r| == |name| + 1 ==> r[|name|] == '1'
  {
    var replaced := ReplaceChar(name, '-', '_');
    if IsReserved(words, ToLower(replaced)) then replaced + "1" else replaced
  }

  /** A name that is not reserved once its hyphens are replaced is left
      alone by a second conversion: converting is then idempotent. */
  lemma ConvertIdempotentWhenNotReserved(name: string, words: ReservedWords)
    requires !IsReserved(words, ToLower(ReplaceChar(name, '-', '_')))
    ensures ConvertReservedWords(ConvertReservedWords(name, words), words) == ConvertReservedWords(name, words)
  {
    var once := ConvertReservedWords(name, words);
    assert ReplaceChar(once, '-', '_') == once;
  }

  /** Hyphens and underscores are not told apart: "a-b" and "a_b" become the
      same name. */
  lemma HyphenAndUnderscoreCollide(words: ReservedWords)
    ensures ConvertReservedWords("a-b", words) == ConvertReservedWords("a_b", words)
  {
    assert ReplaceChar("a-b", '-', '_') == "a_b";
    assert ReplaceChar("a_b", '-', '_') == "a_b";
  }

  // ---------------------------------------------------------------------
  // Package prefix from a namespace
  // ---------------------------------------------------------------------

  const HttpPrefix: string := "http://"
  const WwwPrefix: string := "www."

  /** Everything after the first occurrence of `marker`, or the whole string
      when it does not occur. */
  function AfterFirst(s: string, marker: string): (r: string)
    ensures Contains(s, marker) ==>
      |r| + |marker| <= |s| && r == s[|s| - |r|..] && OccursAt(s, marker, |s| - |r| - |marker|)
    ensures Contains(s, marker) ==> forall k :: 0 <= k < |s| - |r| - |marker| ==> !OccursAt(s, marker, k)
    ensures !Contains(s, marker) ==> r == s
  {
    if Contains(s, marker) then s[IndexOf(s, marker) + |marker|..] else s
  }

  /** The strings in the order given, each followed by ".". */
  function DotTerminated(parts: seq<string>): (r: string)
    ensures parts != [] ==> r != [] && r[|r| - 1] == '.'
  {
    if parts == [] then "" else parts[0] + "." + DotTerminated(parts[1..])
  }

  function Reverse<T>(xs: seq<T>): (r: seq<T>)
    ensures |r| == |xs|
    ensures forall i :: 0 <= i < |xs| ==> r[i] == xs[|xs| - 1 - i]
  {
    if xs == [] then [] else Reverse(xs[1..]) + [xs[0]]
  }

  /** The non-empty strings, in order. */
  function NonEmpty(parts: seq<string>): (r: seq<string>)
    ensures forall i :: 0 <= i < |r| ==> r[i] != [] && r[i] in parts
    ensures forall p :: p in parts && p != [] ==> p in r
  {
    if parts == [] then []
    else NonEmpty(parts[..|parts| - 1]) + (if parts[|parts| - 1] != [] then [parts[|parts| - 1]] else [])
  }

  /** Dropping the empty strings distributes over concatenation, so the
      non-empty strings keep their order and their repeats. */
  lemma {:induction false} NonEmptyAppend(xs: seq<string>, ys: seq<string>)
    ensures NonEmpty(xs + ys) == NonEmpty(xs) + NonEmpty(ys)
    decreases |ys|
  {
    if ys != [] {
      var init := ys[..|ys| - 1];
      assert (xs + ys)[..|xs + ys| - 1] == xs + init;
      NonEmptyAppend(xs, init);
    } else {
      assert xs + ys == xs;
    }
  }

  /** One string is kept exactly when it is non-empty. */
  lemma NonEmptySingleton(p: string)
    ensures NonEmpty([p]) == (if p != [] then [p] else [])
  {
    assert [p][..0] == [];
  }

  /** The segments of "a//b/a" keep their order and the repeated "a". */
  lemma NonEmptyKeepsOrderAndRepeats()
    ensures NonEmpty(["a", "", "b", "a"]) == ["a", "b", "a"]
  {
    var a, e, b := "a", "", "b";
    NonEmptySingleton(a);
    NonEmptySingleton(e);
    NonEmptySingleton(b);
    NonEmptyAppend([a], [e]);
    NonEmptyAppend([b], [a]);
    NonEmptyAppend([a] + [e], [b] + [a]);
    assert [a, e, b, a] == ([a] + [e]) + ([b] + [a]);
  }

  /** The host of an address without scheme: what precedes the first '/'. */
  function Host(s: string): string {
    if Contains(s, "/") then s[..IndexOf(s, "/")] else s
  }

  /** The path of an address without scheme: what follows the first '/'. */
  function TrailingPath(s: string): string {
    if Contains(s, "/") then s[IndexOf(s, "/") + 1..] else ""
  }

  /** The package prefix of a namespace: after the scheme "http://" and a
      "www." are cut off, the dot-separated labels of the host in reverse
      order, then the non-empty '/'-separated path segments in order, each
      followed by ".". */
  function PackageOf(namespace: string): string {
    var address := AfterFirst(AfterFirst(namespace, HttpPrefix), WwwPrefix);
    DotTerminated(Reverse(JavaSplit(Host(address), '.'))) +
    DotTerminated(NonEmpty(JavaSplit(TrailingPath(address), '/')))
  }

  lemma {:induction false} DotTerminatedAppend(parts: seq<string>, last: string)
    ensures DotTerminated(parts + [last]) == DotTerminated(parts) + last + "."
  {
    if parts != [] {
      assert (parts + [last])[1..] == parts[1..] + [last];
      DotTerminatedAppend(parts[1..], last);
    } else {
      assert [last][1..] == [];
    }
  }

  /** One more label, taken from the front, is one more dot-terminated
      label at the end of the reversed labels. */
  lemma ReverseStep(labels: seq<string>, i: nat)
    requires i < |labels|
    ensures DotTerminated(Reverse(labels[i..])) == DotTerminated(Reverse(labels[i + 1..])) + labels[i] + "."
  {
    assert labels[i..][1..] == labels[i + 1..];
    assert Reverse(labels[i..]) == Reverse(labels[i + 1..]) + [labels[i]];
    DotTerminatedAppend(Reverse(labels[i + 1..]), labels[i]);
  }

  /** One more segment adds one more dot-terminated segment, unless it is
      empty. */
  lemma NonEmptyStep(segments: seq<string>, j: nat)
    requires j < |segments|
    ensures DotTerminated(NonEmpty(segments[..j + 1])) ==
            DotTerminated(NonEmpty(segments[..j])) + (if segments[j] != [] then segments[j] + "." else "")
  {
    assert segments[..j + 1][..j] == segments[..j];
    if segments[j] != [] {
      assert NonEmpty(segments[..j + 1]) == NonEmpty(segments[..j]) + [segments[j]];
      DotTerminatedAppend(NonEmpty(segments[..j]), segments[j]);
    } else {
      assert NonEmpty(segments[..j + 1]) == NonEmpty(segments[..j]);
    }
  }

  lemma ExtendAssoc(a: string, b: string, c: string)
    ensures a + b + c + "." == a + (b + c + ".")
  {
  }

  /** The first loop of extractPackageFromNamespace: the host's labels from
      the last to the first, each followed by ".". */
  method ReversedLabels(labels: seq<string>) returns (path: string)
    ensures path == DotTerminated(Reverse(labels))
  {
    path := "";
    var i := |labels| - 1;
    while i >= 0
      invariant -1 <= i < |labels|
      invariant path == DotTerminated(Reverse(labels[i + 1..]))
      decreases i + 1
    {
      ReverseStep(labels, i);
      path := path + labels[i] + ".";
      i := i - 1;
    }
    assert labels[0..] == labels;
  }

  /** The second loop of extractPackageFromNamespace: the path segments in
      order, each followed by ".", the empty ones skipped. */
  method AppendSegments(hostPart: string, segments: seq<string>) returns (path: string)
    ensures path == hostPart + DotTerminated(NonEmpty(segments))
  {
    path := hostPart;
    var j := 0;
    assert segments[..0] == [];
    while j < |segments|
      invariant 0 <= j <= |segments|
      invariant path == hostPart + DotTerminated(NonEmpty(segments[..j]))
    {
      NonEmptyStep(segments, j);
      if |segments[j]| > 0 {
        ExtendAssoc(hostPart, DotTerminated(NonEmpty(segments[..j])), segments[j]);
        path := path + segments[j] + ".";
      }
      j := j + 1;
    }
    assert segments[..|segments|] == segments;
  }

  /** extractPackageFromNamespace: the scheme and "www." are cut off, the
      address is split into host and path, and the two loops build the
      prefix. */
  method ExtractPackageFromNamespace(namespace: string) returns (path: string)
    ensures path == PackageOf(namespace)
  {
    var ns := namespace;
    if Contains(ns, HttpPrefix) {
      ns := ns[IndexOf(ns, HttpPrefix) + |HttpPrefix|..];
    }
    if Contains(ns, WwwPrefix) {
      ns := ns[IndexOf(ns, WwwPrefix) + |WwwPrefix|..];
    }
    var address := ns;
    var trailingPath := "";
    if Contains(ns, "/") {
      trailingPath := ns[IndexOf(ns, "/") + 1..];
      ns := ns[..IndexOf(ns, "/")];
    }
    assert address == AfterFirst(AfterFirst(namespace, HttpPrefix), WwwPrefix);
    assert ns == Host(address) && trailingPath == TrailingPath(address);
    path := ReversedLabels(JavaSplit(ns, '.'));
    path := AppendSegments(path, JavaSplit(trailingPath, '/'));
  }

  /** A non-empty package prefix ends with ".", so an entity name can be
      appended to it directly. */
  lemma PackageEndsWithDot(namespace: string)
    requires PackageOf(namespace) != []
    ensures PackageOf(namespace)[|PackageOf(namespace)| - 1] == '.'
  {
    var address := AfterFirst(AfterFirst(namespace, HttpPrefix), WwwPrefix);
    var hostPart := DotTerminated(Reverse(JavaSplit(Host(address), '.')));
    var pathPart := DotTerminated(NonEmpty(JavaSplit(TrailingPath(address), '/')));
    if pathPart == [] {
      assert PackageOf(namespace) == hostPart + [];
    }
  }

  lemma {:induction false} NoCharInDotTerminated(parts: seq<string>, c: char)
    requires c != '.'
    requires forall i :: 0 <= i < |parts| ==> c !in parts[i]
    ensures c !in DotTerminated(parts)
  {
    if parts != [] {
      NoCharInDotTerminated(parts[1..], c);
    }
  }

  /** The host never contains '/'. */
  lemma NoSlashInHost(s: string)
    ensures '/' !in Host(s)
  {
    if Contains(s, "/") {
      var k := IndexOf(s, "/");
      forall i | 0 <= i < k ensures s[i] != '/' {
        assert !OccursAt(s, "/", i);
        assert s[i..i + 1] == [s[i]];
      }
    } else {
      forall i | 0 <= i < |s| ensures s[i] != '/' {
        assert !OccursAt(s, "/", i);
        assert s[i..i + 1] == [s[i]];
      }
    }
  }

  /** A package prefix never contains '/': the host has none, and the path
      is split at every '/'. */
  lemma PackageHasNoSlash(namespace: string)
    ensures '/' !in PackageOf(namespace)
  {
    var address := AfterFirst(AfterFirst(namespace, HttpPrefix), WwwPrefix);
    var labels := JavaSplit(Host(address), '.');
    NoSlashInHost(address);
    JavaSplitPiecesFromInput(Host(address), '.', '/');
    NoCharInDotTerminated(Reverse(labels), '/');
    var segments := NonEmpty(JavaSplit(TrailingPath(address), '/'));
    NoCharInDotTerminated(segments, '/');
  }

  /** For "http://www." followed by a host without '/', a '/' and a path,
      the prefix is the host's labels reversed, then the path segments. */
  lemma SchemeAndWwwAreStripped(host: string, trail: string)
    requires '/' !in host
    ensures PackageOf("http://www." + host + "/" + trail) ==
      DotTerminated(Reverse(JavaSplit(host, '.'))) + DotTerminated(NonEmpty(JavaSplit(trail, '/')))
  {
    var s := "http://www." + host + "/" + trail;
    assert s[..|HttpPrefix|] == HttpPrefix;
    assert IndexOf(s, HttpPrefix) == 0;
    var s1 := s[|HttpPrefix|..];
    assert s1 == "www." + host + "/" + trail;
    assert s1[..|WwwPrefix|] == WwwPrefix;
    assert IndexOf(s1, WwwPrefix) == 0;
    var s2 := s1[|WwwPrefix|..];
    assert s2 == host + "/" + trail;
    assert OccursAt(s2, "/", |host|);
    forall i | 0 <= i < |host| ensures !OccursAt(s2, "/", i) {
      assert s2[i..i + 1] == [host[i]];
    }
    var k := IndexOf(s2, "/");
    assert k == |host|;
    assert s2[..k] == host;
    assert s2[k + 1..] == trail;
  }

  // ---------------------------------------------------------------------
  // The update script's file name
  // ---------------------------------------------------------------------

  /** Where "Update" goes: before the last '.', or at the end when there is
      no '.'. */
  function InsertionPoint(fileName: string): (k: nat)
    ensures k <= |fileName|
    ensures k < |fileName| ==> fileName[k] == '.' && '.' !in fileName[k + 1..]
    ensures k == |fileName| ==> '.' !in fileName
  {
    if Contains(fileName, ".") then
      var k := LastIndexOf(fileName, '.');
      assert k >= 0 by {
        var i := IndexOf(fileName, ".");
        assert fileName[i..i + 1] == ".";
        assert fileName[i] == '.';
      }
      assert forall i :: k + 1 <= i < |fileName| ==> fileName[i] != '.';
      k
    else
      assert '.' !in fileName by {
        forall i | 0 <= i < |fileName| ensures fileName[i] != '.' {
          assert !OccursAt(fileName, ".", i);
          assert fileName[i..i + 1] == [fileName[i]];
        }
      }
      |fileName|
  }

  /** The update script's file name: "Update" inserted before the extension
      of the script's file name, or appended when it has none. */
  function UpdateFileName(fileName: string): (r: string)
    ensures |r| == |fileName| + 6
    ensures r[..InsertionPoint(fileName)] == fileName[..InsertionPoint(fileName)]
    ensures r[InsertionPoint(fileName)..InsertionPoint(fileName) + 6] == "Update"
    ensures r[InsertionPoint(fileName) + 6..] == fileName[InsertionPoint(fileName)..]
  {
    if Contains(fileName, ".") then
      var k := LastIndexOf(fileName, '.');
      assert k == InsertionPoint(fileName);
      fileName[..k] + "Update" + fileName[k..]
    else
      fileName + "Update"
  }

  /** Removing the inserted "Update" gives back the script's file name, and
      the extension is unchanged. */
  lemma UpdateFileNameKeepsName(fileName: string)
    ensures var k := InsertionPoint(fileName);
      var r := UpdateFileName(fileName);
      r[..k] + r[k + 6..] == fileName && r[k + 6..] == fileName[k..]
  {
    var k := InsertionPoint(fileName);
    assert fileName[..k] + fileName[k..] == fileName;
  }
}
