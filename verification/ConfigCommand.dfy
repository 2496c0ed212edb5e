/**
  The two command functions of src/builtin/config.c over the heap tree: parse the file, change the
  tree, write it back. They do what the steps of a run say.
 */
module ConfigCommands {
  import opened Wrappers
  import opened Text
  import opened ConfigTree
  import opened ConfigFile
  import opened ConfigRun
  import opened ConfigDatas
  import opened ParseConfigs
  import opened Sources

  predicate Chunked(chunks: seq<string>) {
    CString(Joined(chunks)) && forall i | 0 <= i < |chunks| :: chunks[i] != ""
  }

  /** `parse_config`: the tree of the file, whose bytes are read in the given chunks. */
  method ParseFile(chunks: seq<string>) returns (status: int, conf: ConfigData)
    requires Chunked(chunks)
    ensures fresh(conf) && fresh(conf.Repr) && conf.Valid()
    ensures Outcome(status, conf.tree) == Parse(Joined(chunks))
  {
    var fd := new Source(chunks);
    conf := new ConfigData(None);
    status := ParseConfigFd(conf, fd);
  }

  /** The change in the middle of `config_set_value`. */
  method ChangeTree(conf: ConfigData, key: string, value: Option<string>) returns (status: int, missing: bool)
    requires conf.Valid() && CString(key) && CString(value.GetOr(""))
    modifies conf.Repr
    ensures conf.Valid() && fresh(conf.Repr - old(conf.Repr))
    ensures Outcome(status, conf.tree) == Change(old(conf.tree), key, value)
    ensures missing == FindKey(old(conf.tree), key).None?
  {
    var oldValue := conf.FindAtKey(key);
    missing := oldValue.None?;
    status := 0;
    if value.None? {
      // unset config
      if oldValue.Some? {
        status := conf.DeleteAtKey(key);
      }
    } else if oldValue.None? {
      // create if the entry does not exist
      status := conf.InsertAtKey(key, value.value);
    } else {
      // set the value if it exists
      status := conf.UpdateAtKey(key, value.value);
    }
  }

  /** `config_set_value`: the new bytes of the file, and how the command ends. */
  method ConfigSetValue(chunks: seq<string>, key: string, value: Option<string>) returns (file: string, ending: Ending)
    requires Chunked(chunks) && CString(key) && CString(value.GetOr(""))
    ensures Stepped(file, ending) == SetValue(Joined(chunks), key, value)
  {
    var status, conf := ParseFile(chunks);
    if status != 0 {
      return Joined(chunks), Unparsed(status);
    }
    var missing;
    status, missing := ChangeTree(conf, key, value);
    if status != 0 {
      return Joined(chunks), Died;
    }
    status, file := WriteConfigFd(conf);
    if status != 0 {
      return file, Died;
    }
    // 1 if the key to unset was not found
    ending := Exit(if value.None? && missing then 1 else 0, None);
  }

  /** `config_query_value`, without the fallback to a default. */
  method ConfigQueryValue(chunks: seq<string>, key: string) returns (ending: Ending)
    requires Chunked(chunks) && CString(key)
    ensures ending == QueryValue(Joined(chunks), key)
  {
    var status, conf := ParseFile(chunks);
    if status != 0 {
      return Unparsed(status);
    }
    var value := conf.FindAtKey(key);
    ending := Exit(if value.None? then 1 else 0, value);
  }
}
