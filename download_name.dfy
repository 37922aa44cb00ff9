/** The file-name rule of download_url: the name a downloaded URL is saved
    under. The download itself (network, directories, file writes) is not
    part of this model. */
module DownloadName {
  import opened PyStr
  import opened PyErrors

  /** url.rpartition('/')[2], cut at its first '?' unless it begins with
      '?'. A URL that ends in '/' leaves an empty segment, and reading its
      first character raises IndexError. */
  function FileName(url: string): (r: Result<string>)
    ensures r.Err? <==> AfterLast(url, '/') == []
    ensures r.Err? ==> r.error == IndexError
    ensures r.Ok? ==> r.value != [] && '/' !in r.value
    ensures r.Ok? ==>
      var segment := AfterLast(url, '/');
      && |r.value| <= |segment| && r.value == segment[..|r.value|]
      && (segment[0] == '?' ==> r.value == segment)
      && (segment[0] != '?' ==>
            && '?' !in r.value
            && (|r.value| < |segment| ==> segment[|r.value|] == '?'))
  {
    var file := AfterLast(url, '/');
    if file == [] then Err(IndexError)
    else if file[0] == '?' then Ok(file)
    else
      var name := Split(file, '?')[0];
      SplitFirst(file, '?');
      assert '/' !in name by {
        forall i | 0 <= i < |name| ensures name[i] != '/' { assert name[i] == file[i]; }
      }
      Ok(name)
  }

  /** The name is the text after the last '/' of the URL, up to the first
      '?': for a URL made of a prefix ending in '/', a name without '/' or
      '?', and a query string starting with '?', the name is recovered. */
  lemma FileNameOfUrl(prefix: string, name: string, query: string)
    requires name != [] && '/' !in name && '?' !in name
    requires '/' !in query && (query == [] || query[0] == '?')
    ensures FileName(prefix + "/" + name + query) == Ok(name)
  {
    var url := prefix + "/" + name + query;
    assert url == prefix + ['/'] + (name + query);
    AfterLastSeparator(prefix, name + query, '/');
    if query == [] {
      assert name + query == name;
      SplitNoSeparator(name, '?');
    } else {
      assert name + query == name + ['?'] + query[1..];
      SplitConcat(name, query[1..], '?');
      SplitNoSeparator(name, '?');
    }
  }

  /** The segment after a separator that does not occur again is the whole tail. */
  lemma {:induction false} AfterLastSeparator(p: string, t: string, c: char)
    requires c !in t
    ensures AfterLast(p + [c] + t, c) == t
  {
    var s := p + [c] + t;
    if t != [] {
      var t' := t[..|t| - 1];
      assert s[..|s| - 1] == p + [c] + t';
      AfterLastSeparator(p, t', c);
      assert t' + [t[|t| - 1]] == t;
    }
  }
}
