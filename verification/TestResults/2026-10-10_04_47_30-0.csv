TestResult.DisplayName,TestResult.Outcome,TestResult.Duration,TestResult.ResourceCount,RandomSeed
DocumentApi.HandleDocument (well-formedness),Passed,00:00:00.6884156,1154549,1
DocumentApi.OwnerDestroyRemovesExactly (correctness),Passed,00:00:00.6216016,1189898,1
DocumentApi.OwnerUpdate (correctness),Passed,00:00:00.5141993,932848,1
Accounts.HandleKeepsValid (correctness),Passed,00:00:00.3895007,720391,1
DocumentApi.NonOwnerMutationForbidden (correctness),Passed,00:00:00.3209020,541382,1
Accounts.LogoutIgnoresCredentials (correctness),Passed,00:00:00.3139637,345180,1
DocumentApi.UploadStampsUploader (correctness),Passed,00:00:00.3054151,460158,1
DocumentApi.HandleFileKeepsValid (correctness),Passed,00:00:00.2985697,1160071,1
Documents.Upsert (well-formedness),Passed,00:00:00.2908420,567191,1
Accounts.Handle (well-formedness),Passed,00:00:00.2781563,390194,1
Accounts.LogoutTwice (well-formedness),Passed,00:00:00.2749976,328299,1
DocumentApi.RetrieveOpenToAll (correctness),Passed,00:00:00.2726227,376560,1
Accounts.ProfileIsOwn (correctness),Passed,00:00:00.2655731,411286,1
DocumentApi.OwnerUpdate (well-formedness),Passed,00:00:00.2618887,397564,1
DocumentApi.DocumentFor (well-formedness),Passed,00:00:00.2603756,149586,1
DocumentApi.HandleDocumentKeepsValid (correctness),Passed,00:00:00.2601684,462528,1
DocumentApi.CreateStampsCreator (well-formedness),Passed,00:00:00.2600346,362604,1
DocumentApi.UploadAccepted (correctness),Passed,00:00:00.2572213,426418,1
Accounts.LogoutTwice (correctness),Passed,00:00:00.2504443,379632,1
DocumentApi.HandleKeepsValid (correctness),Passed,00:00:00.2485256,381655,1
Accounts.ResetRequestSilent (correctness),Passed,00:00:00.2474654,556884,1
DocumentApi.UnknownSlugNotFound (correctness),Passed,00:00:00.2473979,365545,1
Accounts.NewPasswordChecks (correctness),Passed,00:00:00.2449388,388299,1
DocumentApi.AnyoneMayDeleteFile (correctness),Passed,00:00:00.2448902,520831,1
DocumentApi.CreateSucceeds (correctness),Passed,00:00:00.2438335,364320,1
Accounts.WrongOldPasswordRejected (correctness),Passed,00:00:00.2354918,353149,1
Accounts.NewPasswordChecks (well-formedness),Passed,00:00:00.2331245,363752,1
Accounts.AnonymousAdmitted (correctness),Passed,00:00:00.2279108,354747,1
DocumentApi.ListShowsAll (well-formedness),Passed,00:00:00.2278680,319233,1
Accounts.WrongOldPasswordRejected (well-formedness),Passed,00:00:00.2265835,345735,1
Uploads.SpreadsheetAccepted (correctness),Passed,00:00:00.2245837,446041,1
DocumentApi.HandleKeepsValid (well-formedness),Passed,00:00:00.2244848,319648,1
Accounts.ResetRoundTrip (correctness),Passed,00:00:00.2236973,449938,1
Accounts.ProfileIsOwn (well-formedness),Passed,00:00:00.2225478,367780,1
Accounts.ResetRequestSilent (well-formedness),Passed,00:00:00.2191159,338916,1
DocumentApi.RetrieveOpenToAll (well-formedness),Passed,00:00:00.2184554,320203,1
DocumentApi.UploadAccepted (well-formedness),Passed,00:00:00.2165529,321994,1
Accounts.ResetRoundTrip (well-formedness),Passed,00:00:00.2163700,337371,1
DocumentApi.Handle (well-formedness),Passed,00:00:00.2121431,351963,1
DocumentApi.CreateStampsCreator (correctness),Passed,00:00:00.2071706,395405,1
DocumentApi.OwnerDestroyRemovesExactly (well-formedness),Passed,00:00:00.2067462,337345,1
Slugs.TriedSize (correctness),Passed,00:00:00.2063779,511321,1
Base64Url.DecodeEncode (correctness),Passed,00:00:00.2021285,793130,1
Uploads.Splitext (well-formedness),Passed,00:00:00.1936307,183820,1
Uploads.SplitextLower (correctness),Passed,00:00:00.1922153,650664,1
DocumentApi.AnyoneMayDeleteFile (well-formedness),Passed,00:00:00.1915505,346746,1
Base64Url.DecodeDomain (correctness),Passed,00:00:00.1870353,618116,1
Accounts.RequestReset (well-formedness),Passed,00:00:00.1822080,267938,1
Accounts.EmailsUnique (well-formedness),Passed,00:00:00.1821041,21210,1
Base64Url.DecodeLeadingGroup (correctness),Passed,00:00:00.1820743,554436,1
DocumentApi.HandleFile (well-formedness),Passed,00:00:00.1724472,665601,1
DocumentApi.NonOwnerMutationForbidden (well-formedness),Passed,00:00:00.1716151,323983,1
Accounts.ConfirmResetSucceedsIff (correctness),Passed,00:00:00.1703657,204562,1
DocumentApi.UnknownSlugNotFound (well-formedness),Passed,00:00:00.1679593,324925,1
Accounts.ConfirmReset (well-formedness),Passed,00:00:00.1604259,194182,1
DocumentApi.ListShowsAll (correctness),Passed,00:00:00.1565635,328428,1
DocumentApi.UploadStampsUploader (well-formedness),Passed,00:00:00.1555066,337066,1
Documents.FindSlug (well-formedness),Passed,00:00:00.1525763,131953,1
Accounts.RegisterUser (well-formedness),Passed,00:00:00.1488471,120883,1
DocumentApi.CreateSucceeds (well-formedness),Passed,00:00:00.1478792,320371,1
Accounts.ChangePassword (well-formedness),Passed,00:00:00.1412343,166422,1
Uploads.LowerChar (well-formedness),Passed,00:00:00.1406868,10484,1
Accounts.UnknownUserIsServerError (correctness),Passed,00:00:00.1404159,267638,1
Accounts.ConfirmResetAsWritten (well-formedness),Passed,00:00:00.1396028,200999,1
DocumentApi.HandleFileKeepsValid (well-formedness),Passed,00:00:00.1379983,186259,1
Accounts.RegisterErrors (well-formedness),Passed,00:00:00.1340870,120959,1
Accounts.GarbledUidIsServerError (correctness),Passed,00:00:00.1296319,216730,1
Accounts.BadTokenRejected (correctness),Passed,00:00:00.1266858,195590,1
Uploads.ParseDocumentFilePath (correctness),Passed,00:00:00.1233043,414478,1
Accounts.ShortPasswordRejected (well-formedness),Passed,00:00:00.1214944,110032,1
DocumentApi.HandleDocumentKeepsValid (well-formedness),Passed,00:00:00.1194606,240194,1
DocumentApi.RemoveDocumentKeepsValid (correctness),Passed,00:00:00.1187770,287091,1
Documents.SlugsOfOthers (well-formedness),Passed,00:00:00.1163880,16759,1
DocumentApi.FindFile (well-formedness),Passed,00:00:00.1108436,90598,1
Accounts.ConfirmResetSucceedsIff (well-formedness),Passed,00:00:00.1063831,187671,1
Uploads.LastIndexOfLower (correctness),Passed,00:00:00.1061450,57485,1
Http.NoNullChars (well-formedness),Passed,00:00:00.1029620,8627,1
ResetLink.DecodeEncodeUid (correctness),Passed,00:00:00.1017360,122069,1
Accounts.DuplicateEmailRejected (well-formedness),Passed,00:00:00.1016381,117641,1
Accounts.RegisteredUserChecks (correctness),Passed,00:00:00.1014560,175564,1
Documents.FilesNotOf (well-formedness),Passed,00:00:00.1010448,253156,1
Uploads.DotFileRejected (correctness),Passed,00:00:00.0913698,210403,1
Accounts.BadTokenRejected (well-formedness),Passed,00:00:00.0912803,172961,1
Permissions.StrangersUnauthorized (well-formedness),Passed,00:00:00.0879659,50670,1
Permissions.StrangersUnauthorized (correctness),Passed,00:00:00.0833484,42993,1
Accounts.Revoke (well-formedness),Passed,00:00:00.0784396,144396,1
Accounts.RegisteredUserChecks (well-formedness),Passed,00:00:00.0743583,135408,1
Base64Url.EncodeTail (well-formedness),Passed,00:00:00.0724274,182120,1
Documents.Save (well-formedness),Passed,00:00:00.0717933,155700,1
Documents.RemoveAtKeepsDocsDistinct (well-formedness),Passed,00:00:00.0702916,27547,1
ResetLink.EncodeUid (well-formedness),Passed,00:00:00.0691511,55613,1
ResetLink.EncodeUidInjective (correctness),Passed,00:00:00.0691379,74860,1
Accounts.TicketUser (well-formedness),Passed,00:00:00.0673257,87446,1
DocumentApi.UploadErrors (well-formedness),Passed,00:00:00.0669094,150648,1
Accounts.ConfirmErrors (well-formedness),Passed,00:00:00.0657800,131394,1
Base64Url.TrailingBitsIgnored (correctness),Passed,00:00:00.0653905,122679,1
Base64Url.Encode (well-formedness),Passed,00:00:00.0636752,179170,1
Documents.UpsertKeepsSlugsDistinct (correctness),Passed,00:00:00.0632264,154344,1
Accounts.ConfirmFor (well-formedness),Passed,00:00:00.0625307,95870,1
Base64Url.DecodeTail (well-formedness),Passed,00:00:00.0612813,88798,1
Permissions.DocumentAccessDecision (correctness),Passed,00:00:00.0609496,102060,1
Accounts.DuplicateEmailRejected (correctness),Passed,00:00:00.0607053,119477,1
Accounts.ShortPasswordRejected (correctness),Passed,00:00:00.0606660,118458,1
Uploads.ValidateFileCaseInsensitive (correctness),Passed,00:00:00.0600979,99807,1
Accounts.FirstWithEmail (well-formedness),Passed,00:00:00.0592420,89922,1
Slugs.FirstFree (well-formedness),Passed,00:00:00.0588358,37916,1
Accounts.UpdateProfile (well-formedness),Passed,00:00:00.0566620,107871,1
Uploads.SizeBoundary (correctness),Passed,00:00:00.0563907,77131,1
Uploads.ContentTypeIgnored (correctness),Passed,00:00:00.0558385,77146,1
ResetLink.DecodeUid (well-formedness),Passed,00:00:00.0553648,71373,1
Slugs.AllocateIgnoresUnrelated (correctness),Passed,00:00:00.0547642,92870,1
Base64Url.DecodeTwoByteTail (correctness),Passed,00:00:00.0538971,123483,1
Slugs.AllocateIsLeastFree (correctness),Passed,00:00:00.0534691,81406,1
Base64Url.EncodeInjective (correctness),Passed,00:00:00.0518553,52179,1
Uploads.Lower (well-formedness),Passed,00:00:00.0511697,39468,1
Uploads.ValidateFile (well-formedness),Passed,00:00:00.0511169,84128,1
Accounts.EmailFieldOk (well-formedness),Passed,00:00:00.0476724,64981,1
Accounts.ChangeErrors (well-formedness),Passed,00:00:00.0472056,92757,1
Base64Url.DecodeDomain (well-formedness),Passed,00:00:00.0471048,36512,1
Uploads.SizeBoundary (well-formedness),Passed,00:00:00.0470140,77247,1
Documents.FindId (well-formedness),Passed,00:00:00.0468192,131846,1
Uploads.SpreadsheetAccepted (well-formedness),Passed,00:00:00.0455132,70667,1
Permissions.DocumentAccessDecision (well-formedness),Passed,00:00:00.0453955,39878,1
Base64Url.Decode (well-formedness),Passed,00:00:00.0439271,48856,1
Base64Url.DecodeOneByteTail (well-formedness),Passed,00:00:00.0437038,38089,1
Base64Url.DecodeTwoByteTail (well-formedness),Passed,00:00:00.0435464,41738,1
Uploads.SplitextOfName (correctness),Passed,00:00:00.0429075,73520,1
Documents.RetitledSlug (well-formedness),Passed,00:00:00.0428600,77596,1
Accounts.RegisterPasswordOk (well-formedness),Passed,00:00:00.0398420,46090,1
Uploads.ParseDocumentFilePath (well-formedness),Passed,00:00:00.0392448,33672,1
Permissions.CheckPermissions (well-formedness),Passed,00:00:00.0391951,38865,1
ResetLink.DigitText (well-formedness),Passed,00:00:00.0388918,55310,1
Base64Url.TrailingBitsIgnored (well-formedness),Passed,00:00:00.0378610,47893,1
Slugs.Candidate (well-formedness),Passed,00:00:00.0378044,25228,1
Uploads.LastIndexOf (well-formedness),Passed,00:00:00.0375869,37563,1
DocumentApi.EmptySlugKept (correctness),Passed,00:00:00.0372218,70135,1
Base64Url.DecodeOneByteTail (correctness),Passed,00:00:00.0354921,54992,1
Base64Url.CharSextet (well-formedness),Passed,00:00:00.0347442,52044,1
Slugs.Allocate (well-formedness),Passed,00:00:00.0346540,37488,1
Permissions.CheckObjectPermissions (well-formedness),Passed,00:00:00.0340342,48598,1
Permissions.SafeMethodsAllowed (correctness),Passed,00:00:00.0335330,40293,1
Documents.Valid (well-formedness),Passed,00:00:00.0332523,47004,1
Uploads.ParseFilePath (well-formedness),Passed,00:00:00.0320388,35782,1
Permissions.MutationOnlyByOwner (correctness),Passed,00:00:00.0316011,50974,1
Accounts.Authenticate (well-formedness),Passed,00:00:00.0311589,27524,1
Slugs.FirstFreeFrom (well-formedness),Passed,00:00:00.0310871,61890,1
ResetLink.DigitBytes (well-formedness),Passed,00:00:00.0305846,42919,1
Slugs.CandidateInjective (correctness),Passed,00:00:00.0296189,32074,1
Permissions.MutationOnlyByOwner (well-formedness),Passed,00:00:00.0294000,43023,1
DocumentApi.EmptySlugKept (well-formedness),Passed,00:00:00.0284629,54588,1
Base64Url.CharSextetInverse (correctness),Passed,00:00:00.0282375,46925,1
Documents.RemoveAtKeepsDocsDistinct (correctness),Passed,00:00:00.0280537,66137,1
Documents.SavedSlug (well-formedness),Passed,00:00:00.0277402,51142,1
Permissions.OwnerOrReadOnly (well-formedness),Passed,00:00:00.0271905,17430,1
Slugs.TriedStep (well-formedness),Passed,00:00:00.0271729,24090,1
Documents.UpsertKeepsSlugsDistinct (well-formedness),Passed,00:00:00.0269732,49743,1
Decimal.ParseNatToString (correctness),Passed,00:00:00.0267806,71033,1
Documents.RemoveAtKeepsFilesDistinct (correctness),Passed,00:00:00.0267119,44765,1
Slugs.TriedStep (correctness),Passed,00:00:00.0265811,46994,1
Uploads.IndexOf (well-formedness),Passed,00:00:00.0265016,34460,1
Uploads.DocumentFilePath (well-formedness),Passed,00:00:00.0262545,48319,1
Uploads.LowerIdempotent (correctness),Passed,00:00:00.0256988,28900,1
Base64Url.AllUrlSafeSplit (correctness),Passed,00:00:00.0256351,47437,1
Uploads.SplitextOfName (well-formedness),Passed,00:00:00.0255648,31527,1
Permissions.OwnerAllowed (correctness),Passed,00:00:00.0254701,40010,1
DocumentApi.DocFieldErrors (well-formedness),Passed,00:00:00.0252448,55255,1
Permissions.FileAccessDecision (well-formedness),Passed,00:00:00.0243450,27745,1
Slugs.TriedBound (correctness),Passed,00:00:00.0242827,26308,1
Documents.IdsDistinct (well-formedness),Passed,00:00:00.0241046,16743,1
Accounts.EmailTaken (well-formedness),Passed,00:00:00.0230906,19533,1
Permissions.FileAccessDecision (correctness),Passed,00:00:00.0226015,36200,1
Documents.RemoveAtMembers (correctness),Passed,00:00:00.0221900,26131,1
Base64Url.SextetChar (well-formedness),Passed,00:00:00.0217818,22375,1
DocumentApi.RemoveDocumentKeepsValid (well-formedness),Passed,00:00:00.0214040,55210,1
Documents.SlugsDistinct (well-formedness),Passed,00:00:00.0209165,16744,1
Uploads.HasExtension (well-formedness),Passed,00:00:00.0207405,12713,1
Accounts.NameOk (well-formedness),Passed,00:00:00.0206838,12701,1
Slugs.IsLeastFree (well-formedness),Passed,00:00:00.0206762,25431,1
Slugs.TriedBound (well-formedness),Passed,00:00:00.0205710,20654,1
Decimal.NatToString (well-formedness),Passed,00:00:00.0201209,42464,1
Base64Url.Sextet (well-formedness),Passed,00:00:00.0200701,3673,1
Base64Url.GroupArithmetic (well-formedness),Passed,00:00:00.0200561,19001,1
Slugs.Tried (well-formedness),Passed,00:00:00.0200070,21807,1
Base64Url.EncodeGroup (well-formedness),Passed,00:00:00.0197925,23782,1
Base64Url.AllUrlSafeSplit (well-formedness),Passed,00:00:00.0197222,17812,1
Documents.RemoveAtMembers (well-formedness),Passed,00:00:00.0195798,16014,1
Base64Url.Byte (well-formedness),Passed,00:00:00.0193227,3673,1
Base64Url.GroupArithmetic (correctness),Passed,00:00:00.0189332,64555,1
Decimal.AllDigits (well-formedness),Passed,00:00:00.0182269,10809,1
Documents.RemoveAtKeepsFilesDistinct (well-formedness),Passed,00:00:00.0182127,29082,1
Permissions.Deny (well-formedness),Passed,00:00:00.0181612,10526,1
Decimal.ParseDigits (well-formedness),Passed,00:00:00.0181136,21008,1
DocumentApi.DescriptionOk (well-formedness),Passed,00:00:00.0171565,12700,1
Accounts.Given (well-formedness),Passed,00:00:00.0167150,14133,1
Documents.DocIds (well-formedness),Passed,00:00:00.0154885,14678,1
Uploads.IsUuidText (well-formedness),Passed,00:00:00.0154561,12571,1
Decimal.ParseNatToString (well-formedness),Passed,00:00:00.0152541,21305,1
Base64Url.AllUrlSafe (well-formedness),Passed,00:00:00.0147177,12126,1
Base64Url.Byte2 (well-formedness),Passed,00:00:00.0141186,6842,1
Base64Url.Byte1 (well-formedness),Passed,00:00:00.0139347,9650,1
Documents.SlugsOf (well-formedness),Passed,00:00:00.0132602,14678,1
Uploads.MaxFileSize (well-formedness),Passed,00:00:00.0130198,4231,1
DocumentApi.TextFieldOk (well-formedness),Passed,00:00:00.0120131,13966,1
Base64Url.Byte0 (well-formedness),Passed,00:00:00.0119178,8510,1
Slugs.SubsetSize (correctness),Passed,00:00:00.0115268,18905,1
Decimal.NatToStringInjective (correctness),Passed,00:00:00.0110800,24787,1
Decimal.DigitChar (well-formedness),Passed,00:00:00.0110256,8547,1
Documents.SlugTakenByOther (well-formedness),Passed,00:00:00.0106511,16364,1
Decimal.DigitValue (well-formedness),Passed,00:00:00.0105077,8126,1
Documents.RemoveAt (well-formedness),Passed,00:00:00.0104577,20758,1
