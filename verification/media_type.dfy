/**
 The metadata language: media types with `;k=v` parameters, joined by `,`.
 Rendering follows `render_media_type` and the `','.join` in `encode`; parsing
 follows the `split(',')` / `split(';')` / `split('=')` comprehension in
 `decode`, which builds each parameter set with `dict(...)`.
 */
module MediaType {
  import opened Results
  import Slices

  /** One `k=v` parameter. */
  datatype Param = Param(key: string, value: string)

  /**
   A media type with its parameters in insertion order (a Python dict).
   `s` declares the attachment's size and `c` its checksum; other keys pass through.
   */
  datatype Descriptor = Descriptor(mediaType: string, params: seq<Param>)

  /** `sep.join(parts)` */
  function Join(parts: seq<string>, sep: char): string
    decreases |parts|
  {
    if |parts| == 0 then ""
    else if |parts| == 1 then parts[0]
    else parts[0] + [sep] + Join(parts[1..], sep)
  }

  /** `s.split(sep)`: the maximal separator-free pieces, which join back into `s`. */
  function Split(s: string, sep: char): (parts: seq<string>)
    ensures |parts| >= 1
    ensures Join(parts, sep) == s
    ensures forall i :: 0 <= i < |parts| ==> sep !in parts[i]
    decreases |s|
  {
    if |s| == 0 then [""]
    else if s[0] == sep then
      var rest := Split(s[1..], sep);
      assert ([""] + rest)[1..] == rest;
      [""] + rest
    else
      var rest := Split(s[1..], sep);
      var parts := [[s[0]] + rest[0]] + rest[1..];
      assert parts[1..] == rest[1..];
      assert s == [s[0]] + s[1..];
      parts
  }

  lemma {:induction false} SplitWhole(p: string, sep: char)
    requires sep !in p
    ensures Split(p, sep) == [p]
    decreases |p|
  {
    if |p| > 0 {
      assert sep !in p[1..];
      SplitWhole(p[1..], sep);
    }
  }

  lemma {:induction false} SplitFront(p: string, r: string, sep: char)
    requires sep !in p
    ensures Split(p + [sep] + r, sep) == [p] + Split(r, sep)
    decreases |p|
  {
    var s := p + [sep] + r;
    if |p| > 0 {
      assert s[1..] == p[1..] + [sep] + r;
      assert sep !in p[1..];
      SplitFront(p[1..], r, sep);
      assert [p[0]] + p[1..] == p;
    } else {
      assert s[1..] == r;
    }
  }

  /** Splitting undoes joining when no part holds the separator. */
  lemma {:induction false} SplitJoin(parts: seq<string>, sep: char)
    requires |parts| >= 1
    requires forall i :: 0 <= i < |parts| ==> sep !in parts[i]
    ensures Split(Join(parts, sep), sep) == parts
    decreases |parts|
  {
    if |parts| == 1 {
      SplitWhole(parts[0], sep);
    } else {
      SplitFront(parts[0], Join(parts[1..], sep), sep);
      SplitJoin(parts[1..], sep);
    }
  }

  function RenderParam(p: Param): string
  {
    p.key + "=" + p.value
  }

  function RenderParams(ps: seq<Param>): (r: seq<string>)
    ensures |r| == |ps|
  {
    seq(|ps|, i requires 0 <= i < |ps| => RenderParam(ps[i]))
  }

  /** Separator-free tokens with distinct parameter keys: what rendering can invert. */
  predicate Clean(d: Descriptor)
  {
    && ',' !in d.mediaType && ';' !in d.mediaType
    && (forall i :: 0 <= i < |d.params| ==>
          && ',' !in d.params[i].key && ';' !in d.params[i].key && '=' !in d.params[i].key
          && ',' !in d.params[i].value && ';' !in d.params[i].value && '=' !in d.params[i].value)
    && DistinctKeys(d.params)
  }

  predicate DistinctKeys(ps: seq<Param>)
  {
    forall i, j :: 0 <= i < j < |ps| ==> ps[i].key != ps[j].key
  }

  predicate AllClean(ds: seq<Descriptor>)
  {
    forall i :: 0 <= i < |ds| ==> Clean(ds[i])
  }

  /**
   `render_media_type(t, **params)`: splitting the result on ';' gives the media
   type, then one `k=v` piece per parameter in insertion order.
   */
  function RenderMediaType(d: Descriptor): (r: string)
    ensures Clean(d) ==> Split(r, ';') == [d.mediaType] + RenderParams(d.params)
    ensures |d.params| == 0 ==> r == d.mediaType
  {
    var pieces := RenderParams(d.params);
    var r := d.mediaType + (if |pieces| > 0 then ";" else "") + Join(pieces, ';');
    assert r == Join([d.mediaType] + pieces, ';') by {
      if |pieces| > 0 {
        assert ([d.mediaType] + pieces)[1..] == pieces;
      }
    }
    if Clean(d) then
      assert forall i :: 0 <= i < |pieces| ==> ';' !in pieces[i] by {
        forall i | 0 <= i < |pieces| ensures ';' !in pieces[i] {
          assert pieces[i] == d.params[i].key + "=" + d.params[i].value;
        }
      }
      SplitJoin([d.mediaType] + pieces, ';');
      r
    else r
  }

  function RenderAll(ds: seq<Descriptor>): (r: seq<string>)
    ensures |r| == |ds|
  {
    seq(|ds|, i requires 0 <= i < |ds| => RenderMediaType(ds[i]))
  }

  /** The metadata string: rendered media types joined by ','. */
  function RenderMetadata(ds: seq<Descriptor>): (m: string)
    ensures |ds| >= 1 && AllClean(ds) ==> Split(m, ',') == RenderAll(ds)
    ensures |ds| == 0 ==> m == ""
  {
    var pieces := RenderAll(ds);
    if |ds| >= 1 && AllClean(ds) then
      assert forall i :: 0 <= i < |pieces| ==> ',' !in pieces[i] by {
        forall i | 0 <= i < |pieces| ensures ',' !in pieces[i] {
          RenderHasNoComma(ds[i]);
        }
      }
      SplitJoin(pieces, ',');
      Join(pieces, ',')
    else Join(pieces, ',')
  }

  lemma RenderHasNoComma(d: Descriptor)
    requires Clean(d)
    ensures ',' !in RenderMediaType(d)
  {
    var pieces := RenderParams(d.params);
    forall i | 0 <= i < |pieces| ensures ',' !in pieces[i] {
      assert pieces[i] == d.params[i].key + "=" + d.params[i].value;
    }
    JoinAvoids(pieces, ';', ',');
  }

  lemma {:induction false} JoinAvoids(parts: seq<string>, sep: char, c: char)
    requires sep != c
    requires forall i :: 0 <= i < |parts| ==> c !in parts[i]
    ensures c !in Join(parts, sep)
    decreases |parts|
  {
    if |parts| > 1 {
      JoinAvoids(parts[1..], sep, c);
    }
  }

  /** `params.get(k)`: the value stored under `k`, if any. */
  function Lookup(ps: seq<Param>, k: string): (r: Option<string>)
    ensures r.Some? <==> exists i :: 0 <= i < |ps| && ps[i].key == k
    ensures r.Some? ==> exists i :: 0 <= i < |ps| && ps[i] == Param(k, r.value)
    decreases |ps|
  {
    if |ps| == 0 then None
    else if ps[0].key == k then Some(ps[0].value)
    else
      var r := Lookup(ps[1..], k);
      assert forall i :: 1 <= i < |ps| ==> ps[i] == ps[1..][i - 1];
      r
  }

  /**
   `render_media_type`'s own first parameter is named `media_type`, so a
   parameter of that name passed again through `**params` is a TypeError.
   */
  const ReservedKey: string := "media_type"

  /**
   No media type has a parameter that collides with `render_media_type`'s
   first argument. `RenderableExactly` states it position by position.
   */
  predicate Renderable(ds: seq<Descriptor>)
  {
    ReservedKey !in ParamKeys(ds)
  }

  /** Every parameter key of every media type, in order. */
  function ParamKeys(ds: seq<Descriptor>): seq<string>
    decreases |ds|
  {
    if |ds| == 0 then [] else Keys(ds[0].params) + ParamKeys(ds[1..])
  }

  /** The keys of one media type's parameters, in order. */
  function Keys(ps: seq<Param>): seq<string>
    decreases |ps|
  {
    if |ps| == 0 then [] else [ps[0].key] + Keys(ps[1..])
  }

  /** Key `j` of the list is the key of parameter `j`. */
  lemma {:induction false} KeysAt(ps: seq<Param>)
    ensures |Keys(ps)| == |ps|
    ensures forall j :: 0 <= j < |ps| ==> Keys(ps)[j] == ps[j].key
    decreases |ps|
  {
    if |ps| > 0 {
      KeysAt(ps[1..]);
      assert forall j :: 1 <= j < |ps| ==> ps[j] == ps[1..][j - 1];
    }
  }

  /** A key is among the parameter keys exactly when some parameter of some media type has it. */
  lemma {:induction false} ParamKeysHas(ds: seq<Descriptor>, k: string)
    ensures k in ParamKeys(ds) <==> exists i, j :: 0 <= i < |ds| && 0 <= j < |ds[i].params| && ds[i].params[j].key == k
    decreases |ds|
  {
    if |ds| > 0 {
      ParamKeysHas(ds[1..], k);
      KeysAt(ds[0].params);
      if k in Keys(ds[0].params) {
        var j :| 0 <= j < |Keys(ds[0].params)| && Keys(ds[0].params)[j] == k;
        assert ds[0].params[j].key == k;
      }
      if exists i, j :: 0 <= i < |ds| && 0 <= j < |ds[i].params| && ds[i].params[j].key == k {
        var i, j :| 0 <= i < |ds| && 0 <= j < |ds[i].params| && ds[i].params[j].key == k;
        if i == 0 {
          assert Keys(ds[0].params)[j] == k;
        } else {
          assert ds[1..][i - 1].params[j].key == k;
        }
      }
    }
  }

  /** `Renderable` holds exactly when no parameter, at any position of any media type, is named `media_type`. */
  lemma RenderableExactly(ds: seq<Descriptor>)
    ensures Renderable(ds) <==> forall i, j :: 0 <= i < |ds| && 0 <= j < |ds[i].params| ==> ds[i].params[j].key != ReservedKey
  {
    ParamKeysHas(ds, ReservedKey);
  }

  /**
   `d[k] = v` on a dict: an existing key keeps its place and gets the new
   value, a new key goes last, and every other key keeps its value.
   */
  function Update(ps: seq<Param>, k: string, v: string): (r: seq<Param>)
    ensures |r| == if Lookup(ps, k).Some? then |ps| else |ps| + 1
    ensures forall i :: 0 <= i < |ps| ==> r[i].key == ps[i].key
    ensures Lookup(r, k) == Some(v)
    decreases |ps|
  {
    if |ps| == 0 then [Param(k, v)]
    else if ps[0].key == k then
      var r := [Param(k, v)] + ps[1..];
      assert r[1..] == ps[1..];
      r
    else
      var more := Update(ps[1..], k, v);
      var r := [ps[0]] + more;
      assert r[1..] == more;
      assert forall i :: 1 <= i < |ps| ==> ps[i] == ps[1..][i - 1];
      r
  }

  /** Setting `k` leaves the value under every other key as it was. */
  lemma {:induction false} UpdateKeepsOthers(ps: seq<Param>, k: string, v: string, j: string)
    requires j != k
    ensures Lookup(Update(ps, k, v), j) == Lookup(ps, j)
    decreases |ps|
  {
    if |ps| > 0 && ps[0].key != k {
      UpdateKeepsOthers(ps[1..], k, v, j);
      assert Update(ps, k, v)[1..] == Update(ps[1..], k, v);
    } else if |ps| > 0 {
      assert Update(ps, k, v)[1..] == ps[1..];
    }
  }

  lemma {:induction false} UpdateNewKey(ps: seq<Param>, k: string, v: string)
    requires forall i :: 0 <= i < |ps| ==> ps[i].key != k
    ensures Update(ps, k, v) == ps + [Param(k, v)]
    decreases |ps|
  {
    if |ps| > 0 {
      UpdateNewKey(ps[1..], k, v);
    }
  }

  /** A `k=v` segment is well formed when it splits on '=' into exactly two pieces. */
  predicate WellFormedParam(seg: string)
  {
    |Split(seg, '=')| == 2
  }

  /**
   `dict(param.split('=') for param in segs)`, continuing from `acc`: fails
   exactly when some segment does not split into a key and a value.
   */
  function BuildParams(segs: seq<string>, acc: seq<Param>): (r: Result<seq<Param>>)
    ensures r.Success? <==> forall i :: 0 <= i < |segs| ==> WellFormedParam(segs[i])
    ensures r.Failure? ==> r.error == MalformedParam
    decreases |segs|
  {
    if |segs| == 0 then Success(acc)
    else
      var kv := Split(segs[0], '=');
      if |kv| != 2 then Failure(MalformedParam)
      else
        var r := BuildParams(segs[1..], Update(acc, kv[0], kv[1]));
        assert forall i :: 1 <= i < |segs| ==> segs[i] == segs[1..][i - 1];
        r
  }

  /** A media segment is well formed when every parameter piece after the type is. */
  predicate WellFormedMedia(seg: string)
  {
    var parts := Split(seg, ';');
    forall i :: 1 <= i < |parts| ==> WellFormedParam(parts[i])
  }

  /** Parses one ','-separated segment: the type, then its parameters. */
  function ParseMediaType(seg: string): (r: Result<Descriptor>)
    ensures r.Success? <==> WellFormedMedia(seg)
    ensures r.Success? ==> r.value.mediaType == Split(seg, ';')[0]
    ensures r.Failure? ==> r.error == MalformedParam
  {
    var parts := Split(seg, ';');
    assert forall i :: 1 <= i < |parts| ==> parts[i] == parts[1..][i - 1];
    var params :- BuildParams(parts[1..], []);
    Success(Descriptor(parts[0], params))
  }

  function ParseAll(segs: seq<string>): (r: Result<seq<Descriptor>>)
    ensures r.Success? <==> forall i :: 0 <= i < |segs| ==> WellFormedMedia(segs[i])
    ensures r.Success? ==> |r.value| == |segs|
    ensures r.Failure? ==> r.error == MalformedParam
    decreases |segs|
  {
    if |segs| == 0 then Success([])
    else
      var d :- ParseMediaType(segs[0]);
      assert forall i :: 1 <= i < |segs| ==> segs[i] == segs[1..][i - 1];
      var ds :- ParseAll(segs[1..]);
      Success([d] + ds)
  }

  predicate WellFormedMetadata(m: string)
  {
    var segs := Split(m, ',');
    forall i :: 0 <= i < |segs| ==> WellFormedMedia(segs[i])
  }

  /**
   The metadata parse in `decode`: one descriptor per ','-separated segment, so
   never an empty list; it fails exactly when some parameter piece is not `k=v`.
   */
  function ParseMetadata(m: string): (r: Result<seq<Descriptor>>)
    ensures r.Success? <==> WellFormedMetadata(m)
    ensures r.Success? ==> |r.value| == |Split(m, ',')| >= 1
    ensures r.Failure? ==> r.error == MalformedParam
  {
    ParseAll(Split(m, ','))
  }

  /** What decoding yields for the descriptors given to encoding: none reads back as one empty type. */
  function Normalize(ds: seq<Descriptor>): seq<Descriptor>
  {
    if |ds| == 0 then [Descriptor("", [])] else ds
  }

  lemma {:induction false} BuildRendered(ps: seq<Param>, n: nat)
    requires n <= |ps|
    requires forall i :: 0 <= i < |ps| ==> '=' !in ps[i].key && '=' !in ps[i].value
    requires DistinctKeys(ps)
    ensures BuildParams(RenderParams(ps)[n..], ps[..n]) == Success(ps)
    decreases |ps| - n
  {
    var segs := RenderParams(ps)[n..];
    if n < |ps| {
      assert segs[0] == ps[n].key + "=" + ps[n].value;
      SplitFront(ps[n].key, ps[n].value, '=');
      SplitWhole(ps[n].value, '=');
      assert Split(segs[0], '=') == [ps[n].key, ps[n].value];
      UpdateNewKey(ps[..n], ps[n].key, ps[n].value);
      assert Param(ps[n].key, ps[n].value) == ps[n];
      Slices.PrefixStep(ps, n);
      assert segs[1..] == RenderParams(ps)[n + 1..];
      BuildRendered(ps, n + 1);
    } else {
      assert ps[..n] == ps;
    }
  }

  lemma ParseRendered(d: Descriptor)
    requires Clean(d)
    ensures ParseMediaType(RenderMediaType(d)) == Success(d)
  {
    var parts := Split(RenderMediaType(d), ';');
    assert parts[1..] == RenderParams(d.params);
    BuildRendered(d.params, 0);
    assert d.params[..0] == [];
  }

  lemma AllCleanSplit(ds: seq<Descriptor>)
    requires AllClean(ds) && |ds| >= 1
    ensures Clean(ds[0]) && AllClean(ds[1..])
  {
    forall i | 0 <= i < |ds[1..]| ensures Clean(ds[1..][i]) {
      assert ds[1..][i] == ds[i + 1];
    }
  }

  lemma {:induction false} ParseAllRendered(ds: seq<Descriptor>)
    requires AllClean(ds)
    ensures ParseAll(RenderAll(ds)) == Success(ds)
    decreases |ds|
  {
    if |ds| > 0 {
      var segs := RenderAll(ds);
      AllCleanSplit(ds);
      ParseRendered(ds[0]);
      assert segs[1..] == RenderAll(ds[1..]);
      ParseAllRendered(ds[1..]);
      assert ParseAll(segs) == Success([ds[0]] + ds[1..]);
      assert [ds[0]] + ds[1..] == ds;
    }
  }

  /**
   Parsing inverts rendering for separator-free tokens with distinct keys; an
   empty descriptor list comes back as the single descriptor ("", {}).
   */
  lemma ParseRender(ds: seq<Descriptor>)
    requires AllClean(ds)
    ensures ParseMetadata(RenderMetadata(ds)) == Success(Normalize(ds))
  {
    if |ds| == 0 {
      ParseEmpty();
    } else {
      ParseAllRendered(ds);
    }
  }

  /** Empty metadata parses to exactly one descriptor with an empty type and no parameters. */
  lemma ParseEmpty()
    ensures ParseMetadata("") == Success([Descriptor("", [])])
  {
    assert Split("", ',') == [""];
    assert Split("", ';') == [""];
    assert BuildParams([], []) == Success([]);
    assert ParseMediaType("") == Success(Descriptor("", []));
    var segs: seq<string> := [""];
    assert segs[1..] == [];
    assert ParseAll(segs[1..]) == Success([]);
    assert segs[0] == "";
    assert ParseMediaType(segs[0]) == Success(Descriptor("", []));
    assert ParseAll(segs).Success?;
    assert ParseAll(segs).value == [Descriptor("", [])];
  }
}
