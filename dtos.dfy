/** The request bodies validated before the services run: RegisterDto and
    UpdateUserDto. Each length rule becomes a predicate, and validation
    returns the messages of the rules a body breaks, in field order. */
module Dtos {
  import opened Common

  const UsernameMinLength: nat := 4
  const UsernameMaxLength: nat := 20
  const PasswordMinLength: nat := 6

  const UsernameTooShort := "Username is too short. Minimum length is 4 characters."
  const UsernameTooLong := "Username is too long. Maximum length is 20 characters."
  const PasswordTooShort := "Password is too short. Minimum length is 6 characters."
  const OldPasswordTooShort := "oldPassword is too short. Minimum length is 6 characters."
  const NewPasswordTooShort := "newPassword is too short. Minimum length is 6 characters."

  /** The two variation selectors (text and emoji presentation) that
      validator.js `isLength` leaves out of a string's length. */
  predicate IsPresentationSelector(c: char) {
    c == '\U{FE0E}' || c == '\U{FE0F}'
  }

  /** The length `MinLength`/`MaxLength` test, as validator.js `isLength`
      measures it: a surrogate pair counts once, as one `char` here, and the
      variation selectors do not count at all. */
  function ValidatorLength(s: string): (n: nat)
    ensures n <= |s|
    ensures n == |s| <==> forall i :: 0 <= i < |s| ==> !IsPresentationSelector(s[i])
  {
    if s == [] then 0
    else (if IsPresentationSelector(s[0]) then 0 else 1) + ValidatorLength(s[1..])
  }

  /** The length of a concatenation is the sum of the lengths. */
  lemma {:induction false} ValidatorLengthAppend(a: string, b: string)
    ensures ValidatorLength(a + b) == ValidatorLength(a) + ValidatorLength(b)
  {
    if a == [] {
      assert a + b == b;
    } else {
      assert (a + b)[1..] == a[1..] + b;
      ValidatorLengthAppend(a[1..], b);
    }
  }

  predicate ValidUsername(username: string) {
    UsernameMinLength <= ValidatorLength(username) <= UsernameMaxLength
  }

  predicate ValidPassword(password: string) {
    PasswordMinLength <= ValidatorLength(password)
  }

  datatype RegisterDto = RegisterDto(username: string, password: string)

  /** An absent optional field passes; `username` is the field's name here,
      while the profile service reads a field called `newUsername`. */
  datatype UpdateUserDto = UpdateUserDto(username: Option<string>, oldPassword: Option<string>, newPassword: Option<string>)

  function RegisterDtoErrors(dto: RegisterDto): (errors: seq<string>)
    ensures errors == [] <==> ValidUsername(dto.username) && ValidPassword(dto.password)
    ensures UsernameTooShort in errors <==> ValidatorLength(dto.username) < 4
    ensures UsernameTooLong in errors <==> ValidatorLength(dto.username) > 20
    ensures PasswordTooShort in errors <==> ValidatorLength(dto.password) < 6
  {
    (if ValidatorLength(dto.username) < UsernameMinLength then [UsernameTooShort] else [])
    + (if ValidatorLength(dto.username) > UsernameMaxLength then [UsernameTooLong] else [])
    + (if ValidatorLength(dto.password) < PasswordMinLength then [PasswordTooShort] else [])
  }

  function UpdateUserDtoErrors(dto: UpdateUserDto): (errors: seq<string>)
    ensures errors == [] <==>
      && (dto.username.Some? ==> ValidUsername(dto.username.value))
      && (dto.oldPassword.Some? ==> ValidPassword(dto.oldPassword.value))
      && (dto.newPassword.Some? ==> ValidPassword(dto.newPassword.value))
    ensures UsernameTooShort in errors <==> dto.username.Some? && ValidatorLength(dto.username.value) < 4
    ensures UsernameTooLong in errors <==> dto.username.Some? && ValidatorLength(dto.username.value) > 20
    ensures OldPasswordTooShort in errors <==> dto.oldPassword.Some? && ValidatorLength(dto.oldPassword.value) < 6
    ensures NewPasswordTooShort in errors <==> dto.newPassword.Some? && ValidatorLength(dto.newPassword.value) < 6
  {
    (match dto.username
     case None => []
     case Some(u) =>
       (if ValidatorLength(u) < UsernameMinLength then [UsernameTooShort] else [])
       + (if ValidatorLength(u) > UsernameMaxLength then [UsernameTooLong] else []))
    + (if dto.oldPassword.Some? && ValidatorLength(dto.oldPassword.value) < PasswordMinLength then [OldPasswordTooShort] else [])
    + (if dto.newPassword.Some? && ValidatorLength(dto.newPassword.value) < PasswordMinLength then [NewPasswordTooShort] else [])
  }

  /** Lengths 4 and 20 are accepted, 3 and 21 rejected; the empty username and
      the password "short" are both rejected. */
  lemma RegisterBoundaries(u3: string, u4: string, u20: string, u21: string, p: string)
    requires ValidatorLength(u3) == 3 && ValidatorLength(u4) == 4
    requires ValidatorLength(u20) == 20 && ValidatorLength(u21) == 21 && ValidatorLength(p) == 6
    ensures RegisterDtoErrors(RegisterDto(u4, p)) == [] && RegisterDtoErrors(RegisterDto(u20, p)) == []
    ensures RegisterDtoErrors(RegisterDto(u3, p)) == [UsernameTooShort]
    ensures RegisterDtoErrors(RegisterDto(u21, p)) == [UsernameTooLong]
    ensures RegisterDtoErrors(RegisterDto("", "short")) == [UsernameTooShort, PasswordTooShort]
  {
  }

  /** A trailing emoji-presentation selector does not count: "abc" followed
      by U+FE0F is three characters long for the validator, so it is too
      short a username, while an astral character (two UTF-16 code units)
      counts once, so "ab", an emoji and "cd" make five and pass. */
  lemma PresentationSelectorNotCounted(p: string)
    requires ValidatorLength(p) == 6
    ensures ValidatorLength("abc\U{FE0F}") == 3
    ensures RegisterDtoErrors(RegisterDto("abc\U{FE0F}", p)) == [UsernameTooShort]
    ensures ValidatorLength("ab\U{1F600}cd") == 5
    ensures RegisterDtoErrors(RegisterDto("ab\U{1F600}cd", p)) == []
  {
  }

  /** An update body with every field absent is valid; a present empty field
      is not (only an absent field is optional). */
  lemma UpdateUserDtoOptional()
    ensures UpdateUserDtoErrors(UpdateUserDto(None, None, None)) == []
    ensures UpdateUserDtoErrors(UpdateUserDto(Some(""), None, None)) == [UsernameTooShort]
  {
  }
}
