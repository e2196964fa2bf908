/** Which stored images the handlers ask the blob store to destroy, and under
    which public id. */
module Cloudinary {
  import opened Seqs
  import opened JsStrings

  /** The folder uploads are stored in, which prefixes every public id. */
  const Folder: string := "portfolio_projects"

  /** Only URLs containing this host are destroyed. */
  const Host: string := "cloudinary.com"

  predicate IsCloudinaryUrl(url: string)
  {
    Contains(url, Host)
  }

  /** The last piece of a split is a suffix of the string, preceded by the separator
      unless it is the whole string. */
  lemma {:induction false} SplitLast(s: string, sep: char)
    ensures var r := Split(s, sep); var last := r[|r| - 1];
            |last| <= |s| && last == s[|s| - |last|..]
            && (|r| == 1 ==> last == s)
            && (|r| > 1 ==> |last| < |s| && s[|s| - |last| - 1] == sep)
  {
    if |s| > 0 {
      SplitLast(s[1..], sep);
      var rest := Split(s[1..], sep);
      var l := rest[|rest| - 1];
      assert s[1..][|s[1..]| - |l|..] == s[|s| - |l|..];
      if s[0] != sep && |rest| == 1 {
        assert [s[0]] + s[1..] == s;
      }
      if |rest| > 1 {
        assert s[1..][|s[1..]| - |l| - 1] == s[|s| - |l| - 1];
      }
    }
  }

  /** The first piece of a split is a prefix of the string, followed by the
      separator unless it is the whole string. */
  lemma {:induction false} SplitFirst(s: string, sep: char)
    ensures var first := Split(s, sep)[0];
            first <= s && (|first| == |s| || s[|first|] == sep)
  {
    if |s| > 0 {
      SplitFirst(s[1..], sep);
    }
  }

  /** `parts.pop()` after `url.split("/")`: the text after the last slash. */
  function FileName(url: string): (r: string)
    ensures '/' !in r
    ensures |r| <= |url| && r == url[|url| - |r|..]
    ensures |r| == |url| || url[|url| - |r| - 1] == '/'
  {
    var parts := Split(url, '/');
    SplitLast(url, '/');
    SplitPiecesLackSeparator(url, '/');
    parts[|parts| - 1]
  }

  /** `filename.split(".")[0]`: the text before the first dot. */
  function Stem(filename: string): (r: string)
    ensures '.' !in r
    ensures r <= filename && (|r| == |filename| || filename[|r|] == '.')
  {
    SplitFirst(filename, '.');
    SplitPiecesLackSeparator(filename, '.');
    Split(filename, '.')[0]
  }

  /** `portfolio_projects/${filename.split(".")[0]}`. */
  function PublicId(url: string): (r: string)
    ensures Folder + "/" <= r
    ensures '/' !in r[|Folder| + 1..] && '.' !in r[|Folder| + 1..]
  {
    var id := Folder + "/" + Stem(FileName(url));
    assert id[|Folder| + 1..] == Stem(FileName(url));
    id
  }

  /** For a URL `<dir>/<stem>.<ext>` the public id is the folder and the stem. */
  lemma PublicIdOf(dir: string, stem: string, ext: string)
    requires '/' !in stem && '.' !in stem && '/' !in ext
    ensures PublicId(dir + "/" + stem + "." + ext) == Folder + "/" + stem
  {
    var name := stem + "." + ext;
    assert '/' !in name;
    assert dir + "/" + stem + "." + ext == dir + ['/'] + name;
    SplitAround(dir, name, '/');
    SplitWithoutSeparator(name, '/');
    assert FileName(dir + "/" + stem + "." + ext) == name;
    assert name == stem + ['.'] + ext;
    SplitAround(stem, ext, '.');
    SplitWithoutSeparator(stem, '.');
  }

  /** Any URL with the host in it is destroyed. */
  lemma HostInUrl(before: string, after: string)
    ensures IsCloudinaryUrl(before + Host + after)
  {
    ContainsInfix(before, Host, after);
  }

  /** The public ids destroyed for a list of image URLs, in list order. */
  function DestroyIds(urls: seq<string>): (r: seq<string>)
    ensures |r| <= |urls|
  {
    if |urls| == 0 then []
    else (if IsCloudinaryUrl(urls[0]) then [PublicId(urls[0])] else []) + DestroyIds(urls[1..])
  }

  /** One destroy per URL that contains the Cloudinary host, none for any other
      URL: the ids are exactly the public ids of the Cloudinary URLs. */
  lemma {:induction false} DestroyIdsSpec(urls: seq<string>)
    ensures |DestroyIds(urls)| == |Filter(urls, IsCloudinaryUrl)|
    ensures forall id :: id in DestroyIds(urls) <==> exists u :: u in urls && IsCloudinaryUrl(u) && PublicId(u) == id
  {
    if |urls| > 0 {
      DestroyIdsSpec(urls[1..]);
      assert forall u :: u in urls <==> u == urls[0] || u in urls[1..];
    }
  }

  /** The `i`-th destroy is for the `i`-th Cloudinary URL of the list, so a URL
      listed twice is destroyed twice. */
  lemma {:induction false} DestroyIdsPointwise(urls: seq<string>)
    ensures var c := Filter(urls, IsCloudinaryUrl);
            |DestroyIds(urls)| == |c| && forall i :: 0 <= i < |c| ==> DestroyIds(urls)[i] == PublicId(c[i])
  {
    if |urls| > 0 {
      DestroyIdsPointwise(urls[1..]);
    }
  }

  /** One more URL adds its destroy, if any, at the end. */
  lemma DestroyIdsSnoc(urls: seq<string>, i: nat)
    requires i < |urls|
    ensures DestroyIds(urls[..i + 1])
            == DestroyIds(urls[..i]) + (if IsCloudinaryUrl(urls[i]) then [PublicId(urls[i])] else [])
  {
    assert urls[..i + 1] == urls[..i] + [urls[i]];
    DestroyIdsAppend(urls[..i], [urls[i]]);
    assert [urls[i]][1..] == [];
  }

  lemma {:induction false} DestroyIdsAppend(a: seq<string>, b: seq<string>)
    ensures DestroyIds(a + b) == DestroyIds(a) + DestroyIds(b)
  {
    if |a| == 0 {
      assert a + b == b;
    } else {
      assert (a + b)[1..] == a[1..] + b;
      DestroyIdsAppend(a[1..], b);
    }
  }

  /** A list without Cloudinary URLs destroys nothing. */
  lemma DestroyIdsNone(urls: seq<string>)
    requires forall u :: u in urls ==> !IsCloudinaryUrl(u)
    ensures DestroyIds(urls) == []
  {
    NoMemberIsEmpty(DestroyIds(urls));
  }
}
