/** The multipart request the admin form sends and the shape the body parser
    gives each text field in `req.body`. */
module Multipart {

  /** A file chosen in the admin form (its contents are not modelled). */
  datatype FileRef = FileRef(name: string)

  datatype Part = Text(text: string) | Upload(file: FileRef)

  /** One `formData.append(name, value)` call. */
  datatype Entry = Entry(name: string, part: Part)

  /** `req.body[name]` for a text field: `undefined` when the field was not sent,
      a string when it was sent once, an array when it was sent several times. */
  datatype BodyValue = Absent | Str(s: string) | Arr(items: seq<string>)

  /** The text values sent under `name`, in the order they were appended. */
  function TextValues(entries: seq<Entry>, name: string): (r: seq<string>)
    ensures |r| <= |entries|
  {
    if |entries| == 0 then []
    else
      var e := entries[0];
      (if e.name == name && e.part.Text? then [e.part.text] else []) + TextValues(entries[1..], name)
  }

  lemma {:induction false} TextValuesAppend(a: seq<Entry>, b: seq<Entry>, name: string)
    ensures TextValues(a + b, name) == TextValues(a, name) + TextValues(b, name)
  {
    if |a| == 0 {
      assert a + b == b;
    } else {
      assert (a + b)[1..] == a[1..] + b;
      TextValuesAppend(a[1..], b, name);
    }
  }

  lemma TextValuesCons(e: Entry, rest: seq<Entry>, name: string)
    ensures TextValues([e] + rest, name)
            == (if e.name == name && e.part.Text? then [e.part.text] else []) + TextValues(rest, name)
  {
    assert ([e] + rest)[1..] == rest;
  }

  /** `req.body[name]` as the body parser builds it from repeated text fields. */
  function BodyField(entries: seq<Entry>, name: string): (r: BodyValue)
    ensures r.Absent? <==> |TextValues(entries, name)| == 0
    ensures r.Str? ==> TextValues(entries, name) == [r.s]
    ensures r.Arr? ==> TextValues(entries, name) == r.items && |r.items| >= 2
  {
    var vs := TextValues(entries, name);
    if |vs| == 0 then Absent else if |vs| == 1 then Str(vs[0]) else Arr(vs)
  }

  /** The files uploaded under `name` (`req.files` for `upload.array(name)`), in order. */
  function Files(entries: seq<Entry>, name: string): (r: seq<FileRef>)
    ensures |r| <= |entries|
  {
    if |entries| == 0 then []
    else
      var e := entries[0];
      (if e.name == name && e.part.Upload? then [e.part.file] else []) + Files(entries[1..], name)
  }

  lemma FilesCons(e: Entry, rest: seq<Entry>, name: string)
    ensures Files([e] + rest, name)
            == (if e.name == name && e.part.Upload? then [e.part.file] else []) + Files(rest, name)
  {
    assert ([e] + rest)[1..] == rest;
  }

  lemma {:induction false} FilesAppend(a: seq<Entry>, b: seq<Entry>, name: string)
    ensures Files(a + b, name) == Files(a, name) + Files(b, name)
  {
    if |a| == 0 {
      assert a + b == b;
    } else {
      assert (a + b)[1..] == a[1..] + b;
      FilesAppend(a[1..], b, name);
    }
  }
}
