/** The remote side, as both `push` and `pull` see it: named text files. */
module Gist {
  /** The reserved entry that carries the timestamp and is never a config file. */
  const ReadmeFile := "README.md"

  /** One file of a gist: its name and its content. */
  datatype GistFile = GistFile(name: string, content: string)

  /** Some entry of the update carries the name `n`. */
  ghost predicate Named(update: seq<GistFile>, n: string)
  {
    exists j :: 0 <= j < |update| && update[j].name == n
  }

  /** Entries of an update that share a name carry the same content. */
  ghost predicate NamesAgree(update: seq<GistFile>)
  {
    forall i, j :: 0 <= i < |update| && 0 <= j < |update| && update[i].name == update[j].name ==>
      update[i].content == update[j].content
  }

  /**
   * `gist` is the gist `prior` becomes after `update` is sent: every entry
   * creates or replaces the file of its name, and every file the update does
   * not name stays as it was. Entries that share a name must agree, so no
   * gist is described when they do not.
   */
  ghost predicate Updated(prior: map<string, string>, update: seq<GistFile>, gist: map<string, string>)
  {
    && (forall n :: n in gist <==> n in prior || Named(update, n))
    && (forall j :: 0 <= j < |update| ==> update[j].name in gist && gist[update[j].name] == update[j].content)
    && (forall n :: n in prior && !Named(update, n) ==> n in gist && gist[n] == prior[n])
  }

  /** The gist after an update whose entries agree, entry by entry. */
  function GistAfter(prior: map<string, string>, update: seq<GistFile>): (gist: map<string, string>)
    requires NamesAgree(update)
    ensures Updated(prior, update, gist)
    decreases |update|
  {
    if update == [] then prior
    else
      assert forall i :: 0 <= i < |update| - 1 ==> update[1..][i] == update[i + 1];
      var gist := GistAfter(prior[update[0].name := update[0].content], update[1..]);
      UpdatedCons(prior, update, gist);
      gist
  }

  /** Sending the first entry and then the rest is sending the whole update. */
  lemma UpdatedCons(prior: map<string, string>, update: seq<GistFile>, gist: map<string, string>)
    requires update != [] && NamesAgree(update)
    requires Updated(prior[update[0].name := update[0].content], update[1..], gist)
    ensures Updated(prior, update, gist)
  {
    assert forall i :: 0 <= i < |update| - 1 ==> update[1..][i] == update[i + 1];
    assert forall n :: Named(update[1..], n) ==> Named(update, n);
    assert forall n :: Named(update, n) && n != update[0].name ==> Named(update[1..], n);
    assert Named(update, update[0].name);
  }

  /** An update determines the gist it leaves. */
  lemma UpdatedUnique(prior: map<string, string>, update: seq<GistFile>, g1: map<string, string>, g2: map<string, string>)
    requires Updated(prior, update, g1) && Updated(prior, update, g2)
    ensures g1 == g2
  {
    forall n | n in g1
      ensures g1[n] == g2[n]
    {
      if Named(update, n) {
        var j :| 0 <= j < |update| && update[j].name == n;
      }
    }
  }

  /** Only an update whose entries agree leaves a gist. */
  lemma UpdatedAgrees(prior: map<string, string>, update: seq<GistFile>, gist: map<string, string>)
    requires Updated(prior, update, gist)
    ensures NamesAgree(update)
  {
  }

  /** `docs` are the files of `gist` as `gists().get` lists them: each file, with its content. */
  ghost predicate Lists(docs: seq<GistFile>, gist: map<string, string>)
  {
    && (forall i :: 0 <= i < |docs| ==> docs[i].name in gist && gist[docs[i].name] == docs[i].content)
    && (forall n :: n in gist ==> exists i :: 0 <= i < |docs| && docs[i].name == n)
  }

  /**
   * When the update replaces every file the gist held before, each listed
   * file is one of the update's entries, and each entry is listed.
   */
  lemma ListedFromUpdate(prior: map<string, string>, update: seq<GistFile>, gist: map<string, string>, docs: seq<GistFile>)
    requires Updated(prior, update, gist) && Lists(docs, gist)
    requires forall n :: n in prior ==> Named(update, n)
    ensures forall i :: 0 <= i < |docs| ==> docs[i] in update
    ensures forall j :: 0 <= j < |update| ==> update[j] in docs
  {
    forall i | 0 <= i < |docs|
      ensures docs[i] in update
    {
      assert docs[i].name in gist;
      assert Named(update, docs[i].name);
      var j :| 0 <= j < |update| && update[j].name == docs[i].name;
      assert docs[i] == GistFile(update[j].name, update[j].content) == update[j];
    }
    forall j | 0 <= j < |update|
      ensures update[j] in docs
    {
      assert update[j].name in gist;
      var i :| 0 <= i < |docs| && docs[i].name == update[j].name;
      assert docs[i] == GistFile(update[j].name, update[j].content) == update[j];
    }
  }
}
