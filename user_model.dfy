/** The user record of models/user-model.js and the instance methods the
    application defines on it. The record is a mutable document, so it is a
    class whose methods update its fields in place. */
module UserModel {
  import opened Wrappers
  import opened Strings

  /** One element of `uploadedFiles`: `{title, path, chunks}`. */
  datatype UploadedFile = UploadedFile(title: string, path: string, chunks: seq<int>)

  /** Stored paths carry this prefix in front of the name on disk. */
  const UploadsPrefix := "/uploads/"

  /** A reset link stays valid for one hour (milliseconds). */
  const ResetWindow := 3600000

  /** Number of random bytes behind a reset token. */
  const ResetTokenBytes := 20

  /** The first entry whose path is `key`, in list order. */
  function LookupFile(files: seq<UploadedFile>, key: string): (r: Option<UploadedFile>)
    ensures r.None? <==> forall i :: 0 <= i < |files| ==> files[i].path != key
    ensures r.Some? ==> r.value in files && r.value.path == key
  {
    if files == [] then None
    else if files[0].path == key then Some(files[0])
    else LookupFile(files[1..], key)
  }

  /** LookupFile returns the earliest match and never a later one. */
  lemma {:induction false} LookupFileIsFirst(files: seq<UploadedFile>, key: string, i: nat)
    requires i < |files| && files[i].path == key
    requires forall j :: 0 <= j < i ==> files[j].path != key
    ensures LookupFile(files, key) == Some(files[i])
  {
    if i > 0 {
      assert files[1..][i - 1] == files[i];
      LookupFileIsFirst(files[1..], key, i - 1);
    }
  }

  class User {
    var fullname: string
    var email: string
    var password: string
    var uploadedFiles: seq<UploadedFile>
    var resetPasswordToken: Option<string>
    var resetPasswordExpires: Option<int>

    /** A fresh document: the schema defaults, no files and no reset token. */
    constructor (email: string)
      ensures this.email == email
      ensures fullname == "" && password == "" && uploadedFiles == []
      ensures resetPasswordToken == None && resetPasswordExpires == None
    {
      this.email := email;
      fullname := "";
      password := "";
      uploadedFiles := [];
      resetPasswordToken := None;
      resetPasswordExpires := None;
    }

    /** `generatePasswordReset`, with the output of `crypto.randomBytes(20)`
        and `Date.now()` passed in. */
    method GeneratePasswordReset(random: seq<byte>, now: int)
      requires |random| == ResetTokenBytes
      modifies this
      ensures resetPasswordToken == Some(HexEncode(random))
      ensures |resetPasswordToken.value| == 40
      ensures forall i :: 0 <= i < 40 ==> IsLowerHex(resetPasswordToken.value[i])
      ensures resetPasswordExpires == Some(now + ResetWindow)
      ensures fullname == old(fullname) && email == old(email) && password == old(password)
      ensures uploadedFiles == old(uploadedFiles)
    {
      resetPasswordToken := Some(HexEncode(random));
      resetPasswordExpires := Some(now + ResetWindow);
    }

    /** `findFile`: the first entry stored as "/uploads/" + path, or nothing
        (the source's `false`). */
    method FindFile(path: string) returns (found: Option<UploadedFile>)
      ensures found == LookupFile(uploadedFiles, UploadsPrefix + path)
    {
      var key := UploadsPrefix + path;
      var i := 0;
      while i < |uploadedFiles|
        invariant 0 <= i <= |uploadedFiles|
        invariant LookupFile(uploadedFiles, key) == LookupFile(uploadedFiles[i..], key)
      {
        if uploadedFiles[i].path == key {
          return Some(uploadedFiles[i]);
        }
        assert uploadedFiles[i..][1..] == uploadedFiles[i + 1..];
        i := i + 1;
      }
      return None;
    }

    /** `searchFile`: the same loop as `findFile`, under a second name. */
    method SearchFile(path: string) returns (found: Option<UploadedFile>)
      ensures found == LookupFile(uploadedFiles, UploadsPrefix + path)
    {
      var key := UploadsPrefix + path;
      var i := 0;
      while i < |uploadedFiles|
        invariant 0 <= i <= |uploadedFiles|
        invariant LookupFile(uploadedFiles, key) == LookupFile(uploadedFiles[i..], key)
      {
        if uploadedFiles[i].path == key {
          return Some(uploadedFiles[i]);
        }
        assert uploadedFiles[i..][1..] == uploadedFiles[i + 1..];
        i := i + 1;
      }
      return None;
    }
  }
}
