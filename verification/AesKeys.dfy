/** The three checks of `src/scan_aes.cpp`, with the S-box that is set up for them. */
module AesKeys {
  import opened AesSchedule
  import opened AesSbox

  method ValidAes128Schedule(input: Bytes) returns (valid: bool)
    requires |input| >= 176
    ensures valid <==> input[..176] == Schedule(CodeSbox(), AES128, input[..16], 44)
    ensures valid <==> exists key: Bytes :: |key| == 16 && input[..176] == Schedule(CodeSbox(), AES128, key, 44)
  {
    hide Schedule, CodeSbox;
    RecognisesWhatIsCreated(CodeSbox(), AES128, input);
    valid := ValidSchedule(CodeSbox(), AES128, input);
  }

  method ValidAes192Schedule(input: Bytes) returns (valid: bool)
    requires |input| >= 208
    ensures valid <==> input[..208] == Schedule(CodeSbox(), AES192, input[..24], 52)
    ensures valid <==> exists key: Bytes :: |key| == 24 && input[..208] == Schedule(CodeSbox(), AES192, key, 52)
  {
    hide Schedule, CodeSbox;
    RecognisesWhatIsCreated(CodeSbox(), AES192, input);
    valid := ValidSchedule(CodeSbox(), AES192, input);
  }

  method ValidAes256Schedule(input: Bytes) returns (valid: bool)
    requires |input| >= 240
    ensures valid <==> input[..240] == Schedule(CodeSbox(), AES256, input[..32], 60)
    ensures valid <==> exists key: Bytes :: |key| == 32 && input[..240] == Schedule(CodeSbox(), AES256, key, 60)
  {
    hide Schedule, CodeSbox;
    RecognisesWhatIsCreated(CodeSbox(), AES256, input);
    valid := ValidSchedule(CodeSbox(), AES256, input);
  }
}
