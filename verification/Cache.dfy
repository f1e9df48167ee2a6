/** The cache of installed urls: a list in memory, loaded from its file at the first operation and
    written back when it is flushed or destroyed. */
module Caches {
  import opened XmlUtil
  import opened Text

  predicate IsUrl(url: string) {
    url != "" && LF !in url
  }

  function NonEmpty(lines: seq<string>): (r: seq<string>)
    ensures forall u | u in r :: u in lines && u != ""
  {
    if lines == [] then [] else (if lines[0] != "" then [lines[0]] else []) + NonEmpty(lines[1..])
  }

  /** The urls in a file. */
  function Urls(text: string): seq<string> {
    NonEmpty(Split(text, LF))
  }

  function FileText(urls: seq<string>): string {
    if urls == [] then "" else urls[0] + [LF] + FileText(urls[1..])
  }

  function AsSet(urls: seq<string>): set<string> {
    set u | u in urls
  }

  /** What another process finds in the file, if there is one. */
  function FileSet(file: Option<string>): set<string> {
    match file
    case None => {}
    case Some(text) => AsSet(Urls(text))
  }

  lemma {:induction false} WrittenUrls(urls: seq<string>)
    requires forall u | u in urls :: IsUrl(u)
    ensures Urls(FileText(urls)) == urls
  {
    if urls == [] {
      assert Split("", LF) == [""];
      assert NonEmpty([""]) == NonEmpty([""][1..]) == [];
    } else {
      var rest := Split(FileText(urls[1..]), LF);
      assert urls[0] in urls;
      SplitAfter(urls[0], FileText(urls[1..]), LF);
      WrittenUrls(urls[1..]);
      assert ([urls[0]] + rest)[1..] == rest;
    }
  }

  /** Each url is on a line of its own. */
  lemma {:induction false} TextOfUrls(urls: seq<string>)
    ensures FileText(urls) == Join(urls + [""], '\n')
  {
    if urls != [] {
      TextOfUrls(urls[1..]);
      assert (urls + [""])[1..] == urls[1..] + [""];
    }
  }

  /** The urls in a file of any lines, the last of which may have no line feed: those that are not empty. */
  lemma LinesRead(lines: seq<string>, u: string)
    requires lines != [] && forall l | l in lines :: '\n' !in l
    ensures u in FileSet(Some(Join(lines, '\n'))) <==> u in lines && u != ""
  {
    SplitJoin(lines, '\n');
    NonEmptyKept(lines, u);
  }

  lemma {:induction false} NonEmptyKept(lines: seq<string>, u: string)
    ensures u in NonEmpty(lines) <==> u in lines && u != ""
  {
    if lines != [] {
      NonEmptyKept(lines[1..], u);
      assert u in lines <==> u == lines[0] || u in lines[1..];
    }
  }

  lemma {:induction false} FileTextSnoc(urls: seq<string>, u: string)
    ensures FileText(urls + [u]) == FileText(urls) + (u + [LF])
  {
    if urls == [] {
      assert urls + [u] == [u];
      assert FileText([u][1..]) == "";
    } else {
      assert (urls + [u])[1..] == urls[1..] + [u];
      FileTextSnoc(urls[1..], u);
    }
  }

  lemma AsSetConcat(a: seq<string>, b: seq<string>)
    ensures AsSet(a + b) == AsSet(a) + AsSet(b)
  {
  }

  lemma UrlsAreUrls(text: string)
    ensures forall u | u in Urls(text) :: IsUrl(u)
  {
    var lines := Split(text, LF);
    assert forall i | 0 <= i < |lines| :: LF !in lines[i];
  }

  class Cache {
    /** m_cacheFile, as far as it is a file with a content. */
    var file: Option<string>
    var cachedUrls: seq<string>
    var loaded: bool

    constructor (file: Option<string>)
      ensures Valid() && Untouched() && this.file == file && Contents() == FileSet(file)
    {
      this.file, cachedUrls, loaded := file, [], false;
    }

    ghost predicate Valid()
      reads this
    {
      forall u | u in cachedUrls :: IsUrl(u)
    }

    /** Nothing was done with the cache yet. */
    ghost predicate Untouched()
      reads this
    {
      !loaded && cachedUrls == []
    }

    /** The set the cache stands for: a file that is not loaded yet still counts. */
    ghost function Contents(): set<string>
      reads this
    {
      AsSet(cachedUrls) + if loaded then {} else FileSet(file)
    }

    /** A flush loses nothing: there is no file, or it was loaded, or it was written by this cache. */
    ghost predicate Safe()
      reads this
    {
      loaded || FileSet(file) <= AsSet(cachedUrls)
    }

    method Load()
      requires Valid()
      modifies this`cachedUrls, this`loaded
      ensures Valid() && (loaded || file.None?) && Contents() == old(Contents()) == AsSet(cachedUrls)
    {
      if loaded || file.None? {
        return;
      }
      hide Urls, IsUrl;
      UrlsAreUrls(file.value);
      AsSetConcat(cachedUrls, Urls(file.value));
      ReadUrls(file.value);
      loaded := true;
    }

    /** The lines of the file that are not empty are appended. */
    method ReadUrls(content: string)
      modifies this`cachedUrls
      ensures cachedUrls == old(cachedUrls) + Urls(content)
    {
      hide Urls;
      var text, eof := content, false;
      while !eof
        invariant cachedUrls + (if eof then [] else Urls(text)) == old(cachedUrls) + Urls(content)
        decreases !eof, |text|
      {
        var curStr, rest, end := GetLine(text);
        NextUrl(cachedUrls, text, curStr, rest, end);
        if curStr != "" {
          cachedUrls := cachedUrls + [curStr];
        }
        text, eof := rest, end;
      }
    }

    lemma NextUrl(urls: seq<string>, text: string, line: string, rest: string, eof: bool)
      requires Split(text, LF) == [line] + if eof then [] else Split(rest, LF)
      ensures urls + Urls(text) == (if line == "" then urls else urls + [line]) + if eof then [] else Urls(rest)
    {
      hide Split;
      var others := if eof then [] else Split(rest, LF);
      assert Split(text, LF)[1..] == others;
      assert urls + ([line] + NonEmpty(others)) == urls + [line] + NonEmpty(others);
      assert urls + ([] + NonEmpty(others)) == urls + NonEmpty(others);
    }

    method Find(url: string) returns (found: bool)
      ensures found <==> url in AsSet(cachedUrls)
    {
      for i := 0 to |cachedUrls|
        invariant url !in cachedUrls[..i]
      {
        if cachedUrls[i] == url {
          return true;
        }
      }
      assert cachedUrls[..|cachedUrls|] == cachedUrls;
      return false;
    }

    method Contains(url: string) returns (found: bool)
      requires Valid()
      modifies this`cachedUrls, this`loaded
      ensures Valid() && Safe() && Contents() == old(Contents()) && (found <==> url in Contents())
    {
      Load();
      found := Find(url);
    }

    method Add(url: string)
      requires Valid() && IsUrl(url)
      modifies this`cachedUrls, this`loaded
      ensures Valid() && Safe() && Contents() == old(Contents()) + {url}
    {
      Load();
      var found := Find(url);
      if !found {
        cachedUrls := cachedUrls + [url];
      }
    }

    method Remove(url: string)
      requires Valid()
      modifies this`cachedUrls, this`loaded
      ensures Valid() && Safe() && Contents() == old(Contents()) - {url}
    {
      Load();
      var found := Find(url);
      if found {
        var kept := [];
        for i := 0 to |cachedUrls|
          invariant forall u | u in kept :: IsUrl(u)
          invariant forall u :: u in kept <==> u in cachedUrls[..i] && u != url
        {
          assert cachedUrls[..i + 1] == cachedUrls[..i] + [cachedUrls[i]];
          if cachedUrls[i] != url {
            kept := kept + [cachedUrls[i]];
          }
        }
        assert cachedUrls[..|cachedUrls|] == cachedUrls;
        assert AsSet(kept) == AsSet(cachedUrls) - {url};
        cachedUrls := kept;
      }
    }

    /** flush() does not load: what is written is the list in memory. */
    method Flush()
      requires Valid()
      modifies this`file
      ensures Valid() && Safe() && FileSet(file) == AsSet(cachedUrls) == Contents()
      ensures file == Some(Join(cachedUrls + [""], '\n'))
      ensures old(Safe()) ==> Contents() == old(Contents())
    {
      var text := "";
      for i := 0 to |cachedUrls|
        invariant text == FileText(cachedUrls[..i])
      {
        FileTextSnoc(cachedUrls[..i], cachedUrls[i]);
        assert cachedUrls[..i + 1] == cachedUrls[..i] + [cachedUrls[i]];
        text := text + (cachedUrls[i] + [LF]);
      }
      assert cachedUrls[..|cachedUrls|] == cachedUrls;
      WrittenUrls(cachedUrls);
      TextOfUrls(cachedUrls);
      file := Some(text);
    }
  }

  // ---- sessions ------------------------------------------------------------------------------

  datatype Op = Contains(url: string) | Add(url: string) | Remove(url: string) | Flush

  /** The set after some operations, and the answer of an operation on a set. */
  function After(s: set<string>, ops: seq<Op>): set<string> {
    if ops == [] then s
    else
      var before := After(s, ops[..|ops| - 1]);
      match ops[|ops| - 1]
      case Contains(_) => before
      case Add(u) => before + {u}
      case Remove(u) => before - {u}
      case Flush => before
  }

  /** The set a session works on: what is in the file, unless the first thing it does, its end
      included, is to flush the list that was not loaded. */
  function Start(file: Option<string>, ops: seq<Op>): set<string> {
    if ops == [] || ops[0].Flush? then {} else FileSet(file)
  }

  /** One session on one cache, up to its destruction. It answers as a set does, and leaves the set in
      its file. */
  method Session(file: Option<string>, ops: seq<Op>) returns (answers: seq<bool>, after: Option<string>)
    requires forall op | op in ops && op.Add? :: IsUrl(op.url)
    ensures |answers| == |ops|
    ensures forall i | 0 <= i < |ops| && ops[i].Contains? ::
      answers[i] <==> ops[i].url in After(Start(file, ops), ops[..i])
    ensures FileSet(after) == After(Start(file, ops), ops)
  {
    var cache := new Cache(file);
    answers := [];
    assert ops[..0] == [];
    for i := 0 to |ops|
      invariant cache.Valid() && fresh(cache) && |answers| == i
      invariant if i == 0 then cache.Untouched() && cache.file == file else cache.Safe()
      invariant i > 0 ==> cache.Contents() == After(Start(file, ops), ops[..i])
      invariant forall k | 0 <= k < i && ops[k].Contains? ::
        answers[k] <==> ops[k].url in After(Start(file, ops), ops[..k])
    {
      assert ops[..i + 1][..i] == ops[..i] && ops[..i + 1][i] == ops[i];
      var answer := false;
      match ops[i] {
        case Contains(url) => answer := cache.Contains(url);
        case Add(url) => cache.Add(url);
        case Remove(url) => cache.Remove(url);
        case Flush => cache.Flush();
      }
      answers := answers + [answer];
    }
    assert ops[..|ops|] == ops;
    cache.Flush();
    after := cache.file;
  }

  /** A session that does nothing empties the file: this is where it is not a set. The file keeps its
      urls exactly when it had none. */
  method IdleSession(file: Option<string>) returns (after: Option<string>)
    ensures FileSet(after) == {}
    ensures FileSet(after) == FileSet(file) <==> file.None? || Urls(file.value) == []
  {
    var answers;
    answers, after := Session(file, []);
    assert file.Some? && Urls(file.value) != [] ==> Urls(file.value)[0] in FileSet(file);
  }
}
