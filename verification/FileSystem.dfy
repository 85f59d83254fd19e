/** A directory as the store sees it: names mapped to byte contents. Every call is one POSIX
    call of the source; a write lands byte by byte, so that a kill may leave any prefix. */
module FileSystem {
  import opened ByteUtil

  type Files = map<string, Bytes>

  /** The directory after each byte of an append. */
  function AppendStates(files: Files, name: string, data: Bytes): (s: seq<Files>)
    requires name in files
    ensures |s| == |data|
  {
    seq(|data|, i requires 0 <= i < |data| => files[name := files[name] + data[..i + 1]])
  }

  /** Two appends in a row pass through the states of one append of both. */
  lemma AppendStatesConcat(files: Files, name: string, a: Bytes, b: Bytes)
    requires name in files
    ensures AppendStates(files, name, a) + AppendStates(files[name := files[name] + a], name, b)
         == AppendStates(files, name, a + b)
    ensures files[name := files[name] + a][name := files[name] + a + b] == files[name := files[name] + (a + b)]
  {
    var mid := files[name := files[name] + a];
    var left := AppendStates(files, name, a) + AppendStates(mid, name, b);
    var right := AppendStates(files, name, a + b);
    assert files[name] + a + b == files[name] + (a + b);
    forall i | 0 <= i < |right|
      ensures left[i] == right[i]
    {
      if i < |a| {
        assert (a + b)[..i + 1] == a[..i + 1];
      } else {
        var j := i - |a|;
        assert (a + b)[..i + 1] == a + b[..j + 1];
        assert files[name] + a + b[..j + 1] == files[name] + (a + b[..j + 1]);
        assert mid[name := mid[name] + b[..j + 1]] == files[name := files[name] + a + b[..j + 1]];
      }
    }
  }

  class Directory {
    var files: Files
    /** Every state the directory has passed through: where a kill can land. */
    ghost var trail: seq<Files>

    constructor (files: Files)
      ensures this.files == files && trail == [files]
    {
      this.files := files;
      trail := [files];
    }

    /** `open` with O_CREAT and without O_TRUNC. */
    method OpenForAppend(name: string)
      modifies this
      ensures files == if name in old(files) then old(files) else old(files)[name := []]
      ensures trail == old(trail) + if name in old(files) then [] else [files]
    {
      if name !in files {
        files := files[name := []];
        trail := trail + [files];
      }
    }

    /** `open` with O_CREAT and O_TRUNC. */
    method Create(name: string)
      modifies this
      ensures files == old(files)[name := []]
      ensures trail == old(trail) + [files]
    {
      files := files[name := []];
      trail := trail + [files];
    }

    method WriteAll(name: string, data: Bytes)
      requires name in files
      modifies this
      ensures files == old(files)[name := old(files)[name] + data]
      ensures trail == old(trail) + AppendStates(old(files), name, data)
    {
      ghost var states := AppendStates(files, name, data);
      var written := 0;
      assert files == files[name := files[name] + data[..0]] by {
        assert files[name] + data[..0] == files[name];
      }
      while written < |data|
        invariant 0 <= written <= |data|
        invariant files == old(files)[name := old(files)[name] + data[..written]]
        invariant trail == old(trail) + states[..written]
      {
        files := files[name := files[name] + [data[written]]];
        trail := trail + [files];
        assert old(files)[name] + data[..written] + [data[written]] == old(files)[name] + data[..written + 1];
        assert states[..written + 1] == states[..written] + [states[written]];
        written := written + 1;
      }
      assert data[..written] == data && states[..written] == states;
    }

    method Truncate(name: string, size: nat)
      requires name in files && size <= |files[name]|
      modifies this
      ensures files == old(files)[name := old(files)[name][..size]]
      ensures trail == old(trail) + [files]
    {
      files := files[name := files[name][..size]];
      trail := trail + [files];
    }

    /** Atomic replacement of `to` by `from`. */
    method Rename(from: string, to: string)
      requires from in files && from != to
      modifies this
      ensures files == (old(files) - {from})[to := old(files)[from]]
      ensures trail == old(trail) + [files]
    {
      files := (files - {from})[to := files[from]];
      trail := trail + [files];
    }

    method Remove(name: string)
      modifies this
      ensures files == old(files) - {name}
      ensures trail == old(trail) + [files]
    {
      files := files - {name};
      trail := trail + [files];
    }
  }
}
