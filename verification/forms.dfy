/** The tweet form: the `content` field is a required, whitespace-stripped
    `CharField(max_length=280)`, the `image` field is optional, and `save`
    puts the author given at construction on the instance and writes the row
    only when asked to. */
module Forms {
  import opened Wrappers
  import opened Models
  import opened Text
  import Store

  /** The errors Django's `CharField` reports for `content`. */
  datatype FieldError = Required | TooLong | NullCharacter

  /** The cleaned data: `Meta.fields = ["content", "image"]`, nothing else. */
  datatype TweetInput = TweetInput(content: string, image: Option<ImageRef>)

  /** A model instance as `save` hands it back; `pk` is `None` until the row
      is written. */
  datatype TweetInstance = TweetInstance(
    pk: Option<TweetId>,
    user: Option<UserId>,
    content: string,
    image: Option<ImageRef>,
    parent: Option<TweetId>)

  /** `ValueError` for saving a form that did not validate; `IntegrityError`
      for writing a row without an existing author. */
  datatype SaveError = NotValidated | IntegrityError

  /** The `content` field: a missing or blank value is `Required` (and no
      other check runs); otherwise the stripped value must be at most 280
      characters and hold no NUL, and every failed check is reported. */
  function CleanContent(raw: Option<string>): (r: Result<string, set<FieldError>>)
    ensures r.Success? <==> raw.Some? && var v := Strip(raw.value);
      v != [] && |v| <= MaxContentLength && '\0' !in v
    ensures r.Success? ==> r.value == Strip(raw.value) && 0 < |r.value| <= MaxContentLength
    ensures r.Failure? ==> r.error != {}
    ensures r.Failure? && (raw.None? || Strip(raw.value) == []) ==> r.error == {Required}
    ensures r.Failure? && raw.Some? && Strip(raw.value) != [] ==>
      && Required !in r.error
      && (TooLong in r.error <==> |Strip(raw.value)| > MaxContentLength)
      && (NullCharacter in r.error <==> '\0' in Strip(raw.value))
  {
    var v := if raw.Some? then Strip(raw.value) else "";
    if v == [] then Failure({Required})
    else
      var errors := (if |v| > MaxContentLength then {TooLong} else {})
                  + (if '\0' in v then {NullCharacter} else {});
      if errors == {} then Success(v) else Failure(errors)
  }

  /** The whole form: only the `content` entry of the posted data and the
      `image` entry of the uploaded files are read; a missing image is
      accepted and leaves the field empty. */
  function Clean(data: map<string, string>, files: map<string, ImageRef>): (r: Result<TweetInput, set<FieldError>>)
    ensures var c := CleanContent(if "content" in data then Some(data["content"]) else None);
      && (r.Success? <==> c.Success?)
      && (r.Success? ==> r.value.content == c.value)
      && (r.Failure? ==> r.error == c.error)
    ensures r.Success? ==> r.value.image == if "image" in files then Some(files["image"]) else None
  {
    var c := CleanContent(if "content" in data then Some(data["content"]) else None);
    if c.Failure? then Failure(c.error)
    else Success(TweetInput(c.value, if "image" in files then Some(files["image"]) else None))
  }

  /** Content over the bound is refused, whatever else is submitted. */
  lemma TooLongRejected(data: map<string, string>, files: map<string, ImageRef>)
    requires "content" in data && |Strip(data["content"])| > MaxContentLength
    ensures Clean(data, files).Failure? && TooLong in Clean(data, files).error
  {
  }

  /** A submission without an image is valid exactly when its content is. */
  lemma NoImageAccepted(data: map<string, string>)
    requires "content" in data
    ensures var r := Clean(data, map[]);
      (r.Success? <==> CleanContent(Some(data["content"])).Success?)
      && (r.Success? ==> r.value.image.None?)
  {
  }

  /** Other entries of the posted data or the uploads never change the outcome. */
  lemma CleanReadsOnlyItsFields(data: map<string, string>, files: map<string, ImageRef>,
                                data': map<string, string>, files': map<string, ImageRef>)
    requires ("content" in data <==> "content" in data') && ("content" in data ==> data["content"] == data'["content"])
    requires ("image" in files <==> "image" in files') && ("image" in files ==> files["image"] == files'["image"])
    ensures Clean(data, files) == Clean(data', files')
  {
  }

  /** Re-submitting the cleaned content yields the same cleaned content. */
  lemma CleanContentIdempotent(raw: string)
    requires CleanContent(Some(raw)).Success?
    ensures CleanContent(Some(CleanContent(Some(raw)).value)) == CleanContent(Some(raw))
  {
    StripIdempotent(raw);
  }

  /** A bound tweet form: the posted data, the uploads and the author handed
      to the constructor. */
  class TweetForm {
    var data: map<string, string>
    var files: map<string, ImageRef>
    var user: Option<UserId>

    constructor (data: map<string, string>, files: map<string, ImageRef>, user: Option<UserId>)
      ensures this.data == data && this.files == files && this.user == user
    {
      this.data := data;
      this.files := files;
      this.user := user;
    }

    function Cleaned(): Result<TweetInput, set<FieldError>>
      reads this
    {
      Clean(data, files)
    }

    /** `save(commit)`: an invalid form cannot be saved; otherwise the
        instance carries the cleaned content and image and the constructor's
        author, and with `commit` the row is written under the next key (the
        database refuses a row without an existing author). Only the tweets
        table and its key counter can change. */
    method Save(store: Store.Store, commit: bool, now: int) returns (r: Result<TweetInstance, SaveError>)
      requires store.Valid()
      modifies store
      ensures store.Valid()
      ensures Cleaned().Failure? ==> r == Failure(NotValidated) && store.Snapshot() == old(store.Snapshot())
      ensures Cleaned().Success? && !commit ==>
        && r == Success(TweetInstance(None, user, Cleaned().value.content, Cleaned().value.image, None))
        && store.Snapshot() == old(store.Snapshot())
      ensures Cleaned().Success? && commit && (user.None? || user.value !in old(store.users)) ==>
        r == Failure(IntegrityError) && store.Snapshot() == old(store.Snapshot())
      ensures Cleaned().Success? && commit && user.Some? && user.value in old(store.users) ==>
        && r == Success(TweetInstance(Some(old(store.nextTweetId)), user, Cleaned().value.content,
                                      Cleaned().value.image, None))
        && store.Snapshot() == AddTweet(old(store.Snapshot()), user.value, Cleaned().value.content,
                                         Cleaned().value.image, None, now)
    {
      var cleaned := Clean(data, files);
      if cleaned.Failure? {
        return Failure(NotValidated);
      }
      var input := cleaned.value;
      var instance := TweetInstance(None, user, input.content, input.image, None);
      if !commit {
        return Success(instance);
      }
      if user.None? || user.value !in store.users {
        return Failure(IntegrityError);
      }
      var t := store.InsertTweet(user.value, input.content, input.image, None, now);
      r := Success(instance.(pk := Some(t.id)));
    }
  }
}
