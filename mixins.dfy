// Tagging of components, builds and products: a tagged object holds a set of (name, value) tags, unique per
// object. The request body is the form the tag serializer validates: a name that must be a non-empty slug, and a
// value of at most 1024 characters that defaults to "".

module Mixins {
  import opened Wrappers
  import opened Text

  /** A tag: its name and its value ("" when it has none). */
  datatype Tag = Tag(name: string, value: string)

  /** The characters a slug may hold: ASCII letters and digits, '-' and '_'. */
  predicate SlugChar(c: char)
  {
    IsAsciiLetter(c) || IsDigit(c) || c == '-' || c == '_'
  }

  predicate IsSlug(s: string)
  {
    s != [] && forall i :: 0 <= i < |s| ==> SlugChar(s[i])
  }

  /** A tag the serializer lets through, and the database's own check that names are not empty. */
  predicate ValidTag(t: Tag)
  {
    IsSlug(t.name) && |t.value| <= 1024
  }

  /**
   * The tag serializer: the name is required, both fields have surrounding white space trimmed, the name must
   * then be a slug and the value at most 1024 characters long; a missing value is "".
   */
  function ValidateTag(body: map<string, string>): (r: Option<Tag>)
    ensures r.Some? ==> ValidTag(r.value)
    ensures r.Some? ==> "name" in body && r.value.name == Strip(body["name"], WhiteSpace)
    ensures r.Some? && "value" !in body ==> r.value.value == ""
    ensures r.Some? && "value" in body ==> r.value.value == Strip(body["value"], WhiteSpace)
    ensures r.None? ==> "name" !in body || !ValidTag(Tag(Strip(body["name"], WhiteSpace),
                                                         if "value" in body then Strip(body["value"], WhiteSpace) else ""))
  {
    if "name" !in body then None
    else
      var t := Tag(Strip(body["name"], WhiteSpace), if "value" in body then Strip(body["value"], WhiteSpace) else "");
      if ValidTag(t) then Some(t) else None
  }

  /** `Tag.__str__`: the name alone when the value is empty, otherwise "name=value". */
  function TagString(t: Tag): (s: string)
    ensures StartsWith(s, t.name)
    ensures t.value == "" ==> s == t.name
    ensures t.value != "" ==> |s| == |t.name| + 1 + |t.value| && s[|t.name|] == '=' && s[|t.name| + 1..] == t.value
  {
    if t.value != "" then t.name + "=" + t.value else t.name
  }

  /** A slug never holds '=', so the first '=' of a tag's string is the one after its name. */
  lemma SlugHasNoEquals(name: string, rest: string)
    requires IsSlug(name)
    ensures forall j :: 0 <= j < |name| ==> !OccursAt(name + rest, "=", j)
  {
    forall j | 0 <= j < |name| ensures !OccursAt(name + rest, "=", j) {
      assert (name + rest)[j] == name[j] && SlugChar(name[j]);
      assert j + 1 <= |name + rest| ==> (name + rest)[j..j + 1] == [name[j]];
    }
  }

  /**
   * Splitting a tag's string at its first '=' gives back the name, whether a value was present, and the value:
   * the string form loses nothing, even when the value itself holds '='.
   */
  lemma {:induction false} TagStringPartition(t: Tag)
    requires IsSlug(t.name)
    ensures Partition(TagString(t), "=") == (t.name, t.value != "", t.value)
  {
    if t.value == "" {
      NameAlonePartition(t.name);
    } else {
      NameValuePartition(t.name, t.value);
    }
  }

  lemma NameAlonePartition(name: string)
    requires IsSlug(name)
    ensures Partition(name, "=") == (name, false, "")
  {
    SlugHasNoEquals(name, "");
    assert name + "" == name;
    assert forall j :: !OccursAt(name, "=", j);
  }

  lemma NameValuePartition(name: string, value: string)
    requires IsSlug(name)
    ensures Partition(name + "=" + value, "=") == (name, true, value)
  {
    var s := name + "=" + value;
    SlugHasNoEquals(name, "=" + value);
    assert s == name + ("=" + value);
    assert OccursAt(s, "=", |name|) by { assert s[|name|..|name| + 1] == "="; }
    var i := IndexOf(s, "=").value;
    assert i == |name|;
    assert s[..i] == name;
    assert s[i + 1..] == value;
  }

  /** Two tags with slug names and the same string form are the same tag. */
  lemma TagStringInjective(a: Tag, b: Tag)
    requires IsSlug(a.name) && IsSlug(b.name)
    ensures TagString(a) == TagString(b) <==> a == b
  {
    TagStringPartition(a);
    TagStringPartition(b);
  }

  /** What a tag request answers: the serializer's rejection, or a status with its detail message. */
  datatype TagResponse = Invalid | Answer(status: int, detail: string)

  /** The success message: the tag's name, followed by ": value" when the value is not empty. */
  function CreatedMessage(t: Tag): (msg: string)
    ensures StartsWith(msg, "Created tag " + t.name)
    ensures t.value == "" <==> msg == "Created tag " + t.name
    ensures t.value != "" ==> msg[|"Created tag " + t.name|..] == ": " + t.value
  {
    var msg := "Created tag " + t.name;
    if t.value != "" then msg + (": " + t.value) else msg
  }

  /** The result of a delete: the serializer's rejection, or the number of tags deleted and the status. */
  datatype DeleteResponse = DeleteInvalid | DeleteAnswer(status: int, deleted: nat)

  /** The tags of `tags` a delete request names: all of them without a body, else the one matching tag, if any. */
  function Doomed(tags: set<Tag>, body: map<string, string>): (r: Option<set<Tag>>)
    ensures body == map[] ==> r == Some(tags)
    ensures body != map[] && ValidateTag(body).None? ==> r.None?
    ensures body != map[] && ValidateTag(body).Some? ==> r == Some(tags * {ValidateTag(body).value})
    ensures r.Some? ==> r.value <= tags
  {
    if body == map[] then Some(tags)
    else match ValidateTag(body)
      case None => None
      case Some(t) => Some(tags * {t})
  }

  /** An object that can be tagged, with the tags it holds. */
  class TaggedObject {
    var tags: set<Tag>

    /** Every stored tag passed the serializer and has a non-empty name. */
    predicate Valid()
      reads this
    {
      forall t :: t in tags ==> ValidTag(t)
    }

    constructor()
      ensures tags == {} && Valid()
    {
      tags := {};
    }

    /**
     * `tags` (POST): a body the serializer rejects changes nothing; a tag the object already holds is refused with
     * 400 "Tag already exists."; otherwise the tag is added and the answer is 201 with the created message.
     */
    method AddTag(body: map<string, string>) returns (r: TagResponse)
      requires Valid()
      modifies this
      ensures Valid()
      ensures ValidateTag(body).None? ==> r == Invalid && tags == old(tags)
      ensures ValidateTag(body).Some? && ValidateTag(body).value in old(tags) ==>
                r == Answer(400, "Tag already exists.") && tags == old(tags)
      ensures ValidateTag(body).Some? && ValidateTag(body).value !in old(tags) ==>
                r == Answer(201, CreatedMessage(ValidateTag(body).value)) &&
                tags == old(tags) + {ValidateTag(body).value}
    {
      var v := ValidateTag(body);
      if v.None? {
        return Invalid;
      }
      var t := v.value;
      if t in tags {
        return Answer(400, "Tag already exists.");
      }
      tags := tags + {t};
      var msg := "Created tag " + t.name;
      if t.value != "" {
        msg := msg + (": " + t.value);
      }
      return Answer(201, msg);
    }

    /**
     * `delete_tag`: without a body every tag is deleted, otherwise only the tag matching the validated name and
     * value; the answer is 404 when nothing was deleted and 200 otherwise.
     */
    method DeleteTags(body: map<string, string>) returns (r: DeleteResponse)
      requires Valid()
      modifies this
      ensures Valid()
      ensures Doomed(old(tags), body).None? ==> r == DeleteInvalid && tags == old(tags)
      ensures Doomed(old(tags), body).Some? ==>
                tags == old(tags) - Doomed(old(tags), body).value &&
                r.DeleteAnswer? && r.deleted == |Doomed(old(tags), body).value| &&
                (r.status == 404 <==> r.deleted == 0) && (r.status == 200 <==> r.deleted != 0)
    {
      var doomed: set<Tag>;
      if body == map[] {
        doomed := tags;
      } else {
        var v := ValidateTag(body);
        if v.None? {
          return DeleteInvalid;
        }
        doomed := tags * {v.value};
      }
      tags := tags - doomed;
      var count := |doomed|;
      if count == 0 {
        return DeleteAnswer(404, count);
      }
      return DeleteAnswer(200, count);
    }
  }

  /** A delete with a body removes at most one tag, and only the one it names. */
  lemma DeleteNamedAtMostOne(tags: set<Tag>, body: map<string, string>)
    requires body != map[] && ValidateTag(body).Some?
    ensures |Doomed(tags, body).value| <= 1
    ensures |Doomed(tags, body).value| == 1 <==> ValidateTag(body).value in tags
    ensures tags - Doomed(tags, body).value == tags - {ValidateTag(body).value}
  {
    var t := ValidateTag(body).value;
    if t in tags {
      assert tags * {t} == {t};
    } else {
      assert tags * {t} == {};
    }
  }

  /** Adding a new tag and then deleting it by the same body gives back the tags held before. */
  lemma AddThenDelete(tags: set<Tag>, body: map<string, string>)
    requires body != map[] && ValidateTag(body).Some? && ValidateTag(body).value !in tags
    ensures var added := tags + {ValidateTag(body).value};
      Doomed(added, body) == Some({ValidateTag(body).value}) && added - Doomed(added, body).value == tags
  {
    var t := ValidateTag(body).value;
    var added := tags + {t};
    assert added * {t} == {t};
    assert added - {t} == tags;
  }

  /** A name that is empty once trimmed is refused, so no stored tag has an empty name. */
  lemma EmptyNameRefused(body: map<string, string>)
    requires "name" in body && Strip(body["name"], WhiteSpace) == ""
    ensures ValidateTag(body).None?
  {
  }
}
